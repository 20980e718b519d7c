/** The simulation as matrix.c runs it: a row-major buffer of w * h cells and
    an array of w column spawners, both updated in place field by field. Every
    method is proved against the value-level meaning in module Frames. */
module Matrix {
  import opened ScreenChars
  import opened CharSpawners
  import opened Frames

  class Grid {
    const w: nat
    const h: nat
    const buffer: array<ScreenChar>
    const spawners: array<CharSpawner>

    /** The grid as a value. */
    ghost function Snapshot(): State
      reads this, buffer, spawners
    {
      State(buffer[..], spawners[..])
    }

    ghost predicate Valid()
      reads this, buffer, spawners
    {
      StateValid(Snapshot(), w, h)
    }

    /** Start-up: every cell empty, every column drawn as in InitSpawner. The
        source leaves an empty cell's lifetime and glyph unset; nothing reads
        them before they are overwritten, and here they are 0. */
    constructor (width: nat, height: nat, init: seq<InitDraws>)
      requires 0 < height && |init| == width
      ensures w == width && h == height
      ensures fresh(buffer) && fresh(spawners)
      ensures Valid()
      ensures forall i :: 0 <= i < buffer.Length ==> buffer[i].kind == Empty
      ensures forall i :: 0 <= i < spawners.Length ==> spawners[i] == InitSpawner(init[i])
    {
      w, h := width, height;
      RowZeroFits(width, height);
      var cells := new ScreenChar[width * height];
      for i := 0 to width * height
        modifies cells
        invariant forall j :: 0 <= j < i ==> cells[j] == ScreenChar(Empty, 0, 0)
      {
        cells[i] := ScreenChar(Empty, 0, 0);
      }
      var columns := new CharSpawner[width];
      for i := 0 to width
        modifies columns
        invariant forall j :: 0 <= j < i ==> columns[j] == InitSpawner(init[j])
      {
        columns[i] := InitSpawner(init[i]);
      }
      buffer, spawners := cells, columns;
    }

    /** The spawner loop of one frame. */
    method SpawnerStep(d: seq<SpawnDraws>)
      requires Valid() && |d| == w
      modifies buffer, spawners
      ensures Valid()
      ensures Snapshot() == SpawnPhase(old(Snapshot()), w, h, d)
    {
      ghost var before := Snapshot();
      for i := 0 to w
        invariant forall j :: 0 <= j < i ==> spawners[j] == ColumnStep(before.spawners[j], d[j]).spawner
        invariant forall j :: i <= j < w ==> spawners[j] == before.spawners[j]
        invariant forall j :: 0 <= j < i && before.spawners[j].spawning ==>
          buffer[j] == Spawn(before.spawners[j], d[j]).cell.value
        invariant forall j :: 0 <= j < buffer.Length && !(j < i && before.spawners[j].spawning) ==>
          buffer[j] == before.cells[j]
      {
        if spawners[i].spawning {
          buffer[i] := buffer[i].(kind := Spawner);
          buffer[i] := buffer[i].(index := GlyphOf(d[i].glyph));
          buffer[i] := buffer[i].(framesLeft := spawners[i].time);
          spawners[i] := spawners[i].(time := spawners[i].time + (d[i].delay % 150 + 150));
          spawners[i] := spawners[i].(spawning := false);
        }
        // the counter is compared with 0 before it is decremented
        var t := spawners[i].time;
        spawners[i] := spawners[i].(time := t - 1);
        if t == 0 {
          spawners[i] := spawners[i].(spawning := true);
          spawners[i] := spawners[i].(time := d[i].trail % 25 + 5);
        }
      }
      assert spawners[..] == SpawnPhase(before, w, h, d).spawners;
      assert buffer[..] == SpawnPhase(before, w, h, d).cells;
    }

    /** The `switch` for cell (x, y): paint it, let a falling glyph write its
        copy one row down unless it is in the bottom row, then update the cell
        itself. */
    method CellStep(x: int, y: int, d: CellDraws) returns (g: Option<Glyph>)
      requires Valid() && 0 <= x < w && 0 <= y < h
      modifies buffer
      ensures Valid()
      ensures var i := CellIndex(w, h, x, y);
        && g == Render(old(buffer[i]), d)
        && buffer[i] == Transition(old(buffer[i]), d)
        && (y < h - 1 && old(buffer[i]).kind == Spawner ==> buffer[i + w] == Fallen(old(buffer[i]), d))
        // nothing else in the grid changes
        && (forall j :: 0 <= j < buffer.Length && j != i && (j != i + w || old(buffer[i]).kind != Spawner) ==>
              buffer[j] == old(buffer[j]))
    {
      var i := CellIndex(w, h, x, y);
      // the source updates the cell through a pointer to it; here through a
      // copy that is stored back once its case is done
      var c := buffer[i];
      match c.kind
      case Spawner =>
        g := Some(Glyph(c.index, Bright));
        if y < h - 1 {
          var below := (y + 1) * w + x;
          buffer[below] := ScreenChar(Spawner, c.framesLeft, GlyphOf(d.glyph));
        }
        if d.roll % 80 != 0 {
          c := c.(kind := StuckStatic);
        } else {
          c := c.(kind := StuckChanging);
        }
        buffer[i] := c;
      case StuckStatic =>
        g := Some(Glyph(c.index, Dim));
        var f := c.framesLeft;
        c := c.(framesLeft := f - 1);
        if f <= 0 {
          c := c.(kind := Empty);
        } else if d.roll % 220 == 0 {
          c := c.(kind := StuckChanging);
          c := c.(framesLeft := c.framesLeft + (d.extra % 10 + 5));
        }
        buffer[i] := c;
      case StuckChanging =>
        if c.framesLeft % 2 != 0 {
          c := c.(index := GlyphOf(d.glyph));
        }
        g := Some(Glyph(c.index, Bright));
        var f := c.framesLeft;
        c := c.(framesLeft := f - 1);
        if f <= 0 {
          c := c.(kind := Empty);
        }
        buffer[i] := c;
      case Empty =>
        g := None;
    }

    /** The cell sweep of one frame: columns from right to left, and in each
        column rows from the bottom up, so the copy a falling glyph writes
        below itself lands on a cell already updated this frame. Returns what
        the frame paints, starting from a cleared screen. */
    method UpdateCells(d: seq<CellDraws>) returns (screen: seq<Option<Glyph>>)
      requires Valid() && |d| == buffer.Length
      modifies buffer
      ensures Valid()
      ensures buffer[..] == CellPhase(old(buffer[..]), w, d)
      ensures screen == Screen(old(buffer[..]), d)
    {
      ghost var m := buffer[..];
      ghost var next := CellPhase(m, w, d);
      var canvas := new Option<Glyph>[buffer.Length](_ => None);
      var x := w - 1;
      while x >= 0
        invariant -1 <= x < w
        invariant Valid() && canvas.Length == buffer.Length
        invariant Swept(buffer[..], canvas[..], m, next, d, w, x)
      {
        UpdateColumn(x, d, canvas, m, next);
        x := x - 1;
      }
      screen := canvas[..];
    }

    /** One column of the sweep, rows from the bottom up. */
    method UpdateColumn(x: int, d: seq<CellDraws>, canvas: array<Option<Glyph>>,
                        ghost m: seq<ScreenChar>, ghost next: seq<ScreenChar>)
      requires Valid() && 0 <= x < w
      requires |m| == |d| == buffer.Length == canvas.Length && next == CellPhase(m, w, d)
      requires Swept(buffer[..], canvas[..], m, next, d, w, x)
      modifies buffer, canvas
      ensures Valid()
      ensures Swept(buffer[..], canvas[..], m, next, d, w, x - 1)
    {
      var y := h - 1;
      // the index of cell (x, y); x - w once the column is done
      ghost var cur := CellIndex(w, h, x, y);
      ColumnStart(buffer[..], canvas[..], m, next, d, w, x, cur);
      while y >= 0
        invariant -1 <= y < h
        invariant 0 <= y ==> cur == CellIndex(w, h, x, y)
        invariant y == -1 ==> cur == x - w
        invariant Valid()
        invariant ColumnSwept(buffer[..], canvas[..], m, next, d, w, x, cur)
      {
        var i := CellIndex(w, h, x, y);
        ghost var pre, paintedBefore := buffer[..], canvas[..];
        var g := CellStep(x, y, d[i]);
        canvas[i] := g;
        ColumnSweptStep(pre, buffer[..], paintedBefore, canvas[..], m, next, d, w, x, cur);
        if y > 0 {
          IndexAbove(w, h, x, y);
        }
        y := y - 1;
        cur := cur - w;
      }
      assert x % w == x by {
        assert CellIndex(w, h, x, 0) == x;
      }
      ColumnEnd(buffer[..], canvas[..], m, next, d, w, x);
    }

    /** One frame: the spawner loop, then the cell sweep. */
    method Step(d: FrameDraws) returns (screen: seq<Option<Glyph>>)
      requires Valid() && DrawsFit(d, w, h)
      modifies buffer, spawners
      ensures Valid()
      ensures Snapshot() == Frame(old(Snapshot()), w, h, d)
      ensures screen == FrameScreen(old(Snapshot()), w, h, d)
    {
      SpawnerStep(d.columns);
      screen := UpdateCells(d.cells);
    }

    /** The main loop, for as many frames as pass before a key is pressed. */
    method Run(ds: seq<FrameDraws>) returns (screens: seq<seq<Option<Glyph>>>)
      requires Valid() && AllDrawsFit(ds, w, h)
      modifies buffer, spawners
      ensures Valid()
      ensures Snapshot() == Evolve(old(Snapshot()), w, h, ds)
      ensures screens == Film(old(Snapshot()), w, h, ds)
    {
      ghost var start := Snapshot();
      screens := [];
      for k := 0 to |ds|
        invariant Valid()
        invariant Snapshot() == Evolve(start, w, h, ds[..k])
        invariant screens == Film(start, w, h, ds[..k])
      {
        EvolveOneMore(start, w, h, ds, k);
        var screen := Step(ds[k]);
        screens := screens + [screen];
      }
      assert ds[..|ds|] == ds;
    }
  }

  /** The sweep has finished the columns right of x: their cells hold their
      new value and have been painted; the other cells are as the sweep found
      them and nothing is painted there yet. */
  ghost predicate Swept(buf: seq<ScreenChar>, canvas: seq<Option<Glyph>>, m: seq<ScreenChar>,
                        next: seq<ScreenChar>, d: seq<CellDraws>, w: nat, x: int)
    requires |buf| == |canvas| == |m| == |next| == |d|
  {
    && (forall i {:trigger buf[i]} :: 0 <= i < |buf| && 0 < w ==>
          buf[i] == if i % w > x then next[i] else m[i])
    && (forall i {:trigger canvas[i]} :: 0 <= i < |buf| && 0 < w ==>
          canvas[i] == if i % w > x then Render(m[i], d[i]) else None)
  }

  /** Column x is swept from the bottom up to just below index `cur`: the
      cell right below `cur` has had its own update but may still receive a
      falling glyph's copy; cells further down hold their new value. */
  ghost predicate ColumnSwept(buf: seq<ScreenChar>, canvas: seq<Option<Glyph>>, m: seq<ScreenChar>,
                              next: seq<ScreenChar>, d: seq<CellDraws>, w: nat, x: int, cur: int)
    requires |buf| == |canvas| == |m| == |next| == |d| && 0 < w
  {
    && (forall i {:trigger buf[i]} :: 0 <= i < |buf| ==>
          buf[i] ==
            if i % w > x then next[i]
            else if i % w < x then m[i]
            else if i > cur + w then next[i]
            else if i == cur + w then Transition(m[i], d[i])
            else m[i])
    && (forall i {:trigger canvas[i]} :: 0 <= i < |buf| ==>
          canvas[i] == if i % w > x || (i % w == x && i > cur) then Render(m[i], d[i]) else None)
  }

  lemma ColumnStart(buf: seq<ScreenChar>, canvas: seq<Option<Glyph>>, m: seq<ScreenChar>,
                    next: seq<ScreenChar>, d: seq<CellDraws>, w: nat, x: int, cur: int)
    requires |buf| == |canvas| == |m| == |next| == |d|
    requires 0 <= x < w && 0 <= cur && cur % w == x && |buf| <= cur + w
    requires Swept(buf, canvas, m, next, d, w, x)
    ensures ColumnSwept(buf, canvas, m, next, d, w, x, cur)
  {
    forall i | 0 <= i < |buf| && i % w == x
      ensures i <= cur
    {
      SameColumn(w, i, cur);
    }
  }

  /** Sweeping the cell at `cur` (the contract of Grid.CellStep, and painting
      what it returns) moves the swept part of the column one row up. */
  lemma ColumnSweptStep(pre: seq<ScreenChar>, post: seq<ScreenChar>,
                        paintedBefore: seq<Option<Glyph>>, painted: seq<Option<Glyph>>,
                        m: seq<ScreenChar>, next: seq<ScreenChar>, d: seq<CellDraws>,
                        w: nat, x: int, cur: int)
    requires |pre| == |post| == |paintedBefore| == |painted| == |m| == |d| && 0 < w
    requires next == CellPhase(m, w, d)
    requires ColumnSwept(pre, paintedBefore, m, next, d, w, x, cur)
    requires 0 <= cur < |pre| && cur % w == x && (cur + w) % w == x
    requires post[cur] == Transition(pre[cur], d[cur])
    requires cur + w < |pre| && pre[cur].kind == Spawner ==> post[cur + w] == Fallen(pre[cur], d[cur])
    requires forall j :: 0 <= j < |pre| && j != cur && (j != cur + w || pre[cur].kind != Spawner) ==>
      post[j] == pre[j]
    requires painted == paintedBefore[cur := Render(pre[cur], d[cur])]
    ensures ColumnSwept(post, painted, m, next, d, w, x, cur - w)
  {
    forall j | 0 <= j < |post|
      ensures post[j] ==
        if j % w > x then next[j]
        else if j % w < x then m[j]
        else if j > cur then next[j]
        else if j == cur then Transition(m[j], d[j])
        else m[j]
    {
      if j % w != x {
        assert j != cur && j != cur + w;
        assert post[j] == pre[j];
      } else {
        SameColumn(w, j, cur);
        if j == cur + w {
          assert FallsInto(m, w, j) == (m[cur].kind == Spawner);
        } else if j != cur {
          assert post[j] == pre[j];
        }
      }
    }
    forall j | 0 <= j < |post|
      ensures painted[j] ==
        if j % w > x || (j % w == x && j > cur - w) then Render(m[j], d[j]) else None
    {
      if j % w == x {
        SameColumn(w, j, cur);
      }
    }
  }

  lemma ColumnEnd(buf: seq<ScreenChar>, canvas: seq<Option<Glyph>>, m: seq<ScreenChar>,
                  next: seq<ScreenChar>, d: seq<CellDraws>, w: nat, x: int)
    requires |buf| == |canvas| == |m| == |next| == |d|
    requires 0 <= x < w && x % w == x
    requires next == CellPhase(m, w, d)
    requires ColumnSwept(buf, canvas, m, next, d, w, x, x - w)
    ensures Swept(buf, canvas, m, next, d, w, x - 1)
  {
    forall i | 0 <= i < |buf| && i % w == x
      ensures i >= x
    {
      SameColumn(w, i, x);
    }
  }
}
