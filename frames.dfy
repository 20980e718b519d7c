/** One whole frame of the animation as values: the w x h cells in row-major
    order (cell (x, y) at index y * w + x) and the w column spawners.
    CellPhase is the reference meaning of the bottom-to-top cell sweep: every
    cell is decided from the cells as they were when the sweep began. */
module Frames {
  import opened ScreenChars
  import opened CharSpawners

  datatype State = State(cells: seq<ScreenChar>, spawners: seq<CharSpawner>)

  /** The raw `rand()` results of one frame: one slot per column for the
      spawner loop and one per cell for the cell sweep. */
  datatype FrameDraws = FrameDraws(columns: seq<SpawnDraws>, cells: seq<CellDraws>)

  /** The grid has w * h cells, at least one row, and one spawner per column. */
  predicate Fits(st: State, w: nat, h: nat) {
    0 < h && |st.cells| == w * h && w <= |st.cells| && |st.spawners| == w
  }

  predicate DrawsFit(d: FrameDraws, w: nat, h: nat) {
    |d.columns| == w && |d.cells| == w * h
  }

  predicate AllCharsValid(cells: seq<ScreenChar>) {
    forall i :: 0 <= i < |cells| ==> CharValid(cells[i])
  }

  predicate StateValid(st: State, w: nat, h: nat) {
    && Fits(st, w, h)
    && AllCharsValid(st.cells)
    && (forall i :: 0 <= i < |st.spawners| ==> SpawnerValid(st.spawners[i]))
  }

  /** Whether the cell at index i has a falling glyph directly above it. */
  predicate FallsInto(cells: seq<ScreenChar>, w: nat, i: int)
    requires 0 <= i < |cells|
  {
    w <= i && cells[i - w].kind == Spawner
  }

  /** The spawner loop: every column runs its step; an armed one writes its
      new falling glyph into row 0, nothing else in the grid changes. */
  function SpawnPhase(st: State, w: nat, h: nat, d: seq<SpawnDraws>): (r: State)
    requires Fits(st, w, h) && |d| == w
    ensures Fits(r, w, h)
    ensures forall i :: w <= i < |r.cells| ==> r.cells[i] == st.cells[i]
    ensures forall i :: 0 <= i < w && !st.spawners[i].spawning ==> r.cells[i] == st.cells[i]
    ensures forall i :: 0 <= i < w && st.spawners[i].spawning ==>
      && r.cells[i].kind == Spawner
      && r.cells[i].framesLeft == st.spawners[i].time
      && 0 <= r.cells[i].index < AlphabetSize
    ensures forall i :: 0 <= i < w ==> r.spawners[i] == ColumnStep(st.spawners[i], d[i]).spawner
    ensures StateValid(st, w, h) ==> StateValid(r, w, h)
  {
    State(
      seq(|st.cells|, i requires 0 <= i < |st.cells| =>
        if i < w && st.spawners[i].spawning then Spawn(st.spawners[i], d[i]).cell.value
        else st.cells[i]),
      seq(w, i requires 0 <= i < w => ColumnStep(st.spawners[i], d[i]).spawner))
  }

  /** The cell sweep, each cell decided from the grid as it stood before the
      sweep: a cell with a falling glyph above it receives that glyph's copy,
      every other cell takes its own update. */
  function CellPhase(mid: seq<ScreenChar>, w: nat, d: seq<CellDraws>): (r: seq<ScreenChar>)
    requires |d| == |mid|
    ensures |r| == |mid|
    // no cascade: after the sweep a falling glyph sits exactly one row below
    // a cell that held one before it
    ensures forall i {:trigger r[i]} :: 0 <= i < |r| ==> (r[i].kind == Spawner <==> FallsInto(mid, w, i))
    ensures forall i {:trigger r[i]} :: 0 <= i < |r| && FallsInto(mid, w, i) ==>
      r[i].framesLeft == mid[i - w].framesLeft && 0 <= r[i].index < AlphabetSize
    // every other cell changes only by its own update
    ensures forall i {:trigger r[i]} :: 0 <= i < |r| && !FallsInto(mid, w, i) ==>
      r[i] == Transition(mid[i], d[i])
    ensures AllCharsValid(mid) ==> AllCharsValid(r)
  {
    seq(|mid|, i requires 0 <= i < |mid| =>
      if FallsInto(mid, w, i) then Fallen(mid[i - w], d[i - w]) else Transition(mid[i], d[i]))
  }

  /** What the frame paints: each cell as it is when the sweep reaches it. */
  function Screen(mid: seq<ScreenChar>, d: seq<CellDraws>): (r: seq<Option<Glyph>>)
    requires |d| == |mid|
    ensures |r| == |mid|
    ensures forall i :: 0 <= i < |r| ==> (r[i].None? <==> mid[i].kind == Empty)
    ensures forall i :: 0 <= i < |r| && r[i].Some? ==> r[i].value.index == Transition(mid[i], d[i]).index
    // only static glyphs are painted dim
    ensures forall i :: 0 <= i < |r| && r[i].Some? ==> (r[i].value.colorPair == Dim <==> mid[i].kind == StuckStatic)
    ensures forall i :: 0 <= i < |r| && r[i].Some? ==> (r[i].value.colorPair == Bright <==> mid[i].kind != StuckStatic)
  {
    seq(|mid|, i requires 0 <= i < |mid| => Render(mid[i], d[i]))
  }

  /** One frame: the spawner loop, then the cell sweep. */
  function Frame(st: State, w: nat, h: nat, d: FrameDraws): (r: State)
    requires Fits(st, w, h) && DrawsFit(d, w, h)
    ensures Fits(r, w, h)
    ensures StateValid(st, w, h) ==> StateValid(r, w, h)
    // a frame moves every falling glyph down exactly one row; a glyph a column
    // spawns this frame is already in row 1 when the frame ends, so row 0
    // never holds a falling glyph between frames
    ensures forall i :: 0 <= i < |r.cells| ==>
      (r.cells[i].kind == Spawner <==>
        w <= i && (st.cells[i - w].kind == Spawner || (i - w < w && st.spawners[i - w].spawning)))
  {
    var mid := SpawnPhase(st, w, h, d.columns);
    State(CellPhase(mid.cells, w, d.cells), mid.spawners)
  }

  /** What frame d paints when it starts from st. */
  function FrameScreen(st: State, w: nat, h: nat, d: FrameDraws): (r: seq<Option<Glyph>>)
    requires Fits(st, w, h) && DrawsFit(d, w, h)
    ensures |r| == w * h
  {
    Screen(SpawnPhase(st, w, h, d.columns).cells, d.cells)
  }

  predicate AllDrawsFit(ds: seq<FrameDraws>, w: nat, h: nat) {
    forall k :: 0 <= k < |ds| ==> DrawsFit(ds[k], w, h)
  }

  /** The grid after the frames ds, in order. */
  function Evolve(st: State, w: nat, h: nat, ds: seq<FrameDraws>): (r: State)
    requires Fits(st, w, h) && AllDrawsFit(ds, w, h)
    ensures Fits(r, w, h)
    decreases |ds|
  {
    if ds == [] then st
    else
      var k := |ds| - 1;
      Frame(Evolve(st, w, h, ds[..k]), w, h, ds[k])
  }

  /** What each of the frames ds paints, in order. */
  function Film(st: State, w: nat, h: nat, ds: seq<FrameDraws>): (r: seq<seq<Option<Glyph>>>)
    requires Fits(st, w, h) && AllDrawsFit(ds, w, h)
    ensures |r| == |ds|
    decreases |ds|
  {
    if ds == [] then []
    else
      var k := |ds| - 1;
      Film(st, w, h, ds[..k]) + [FrameScreen(Evolve(st, w, h, ds[..k]), w, h, ds[k])]
  }

  /** Running the first k + 1 frames is running the first k, then frame k. */
  lemma EvolveOneMore(st: State, w: nat, h: nat, ds: seq<FrameDraws>, k: nat)
    requires Fits(st, w, h) && AllDrawsFit(ds, w, h) && k < |ds|
    ensures AllDrawsFit(ds[..k], w, h) && AllDrawsFit(ds[..k + 1], w, h)
    ensures Evolve(st, w, h, ds[..k + 1]) == Frame(Evolve(st, w, h, ds[..k]), w, h, ds[k])
    ensures Film(st, w, h, ds[..k + 1]) ==
      Film(st, w, h, ds[..k]) + [FrameScreen(Evolve(st, w, h, ds[..k]), w, h, ds[k])]
  {
    assert ds[..k + 1][..k] == ds[..k];
  }

  /** The bounds on glyphs, lifetimes and counters hold in every frame. */
  lemma {:induction false} EvolveKeepsValid(st: State, w: nat, h: nat, ds: seq<FrameDraws>)
    requires StateValid(st, w, h) && AllDrawsFit(ds, w, h)
    ensures StateValid(Evolve(st, w, h, ds), w, h)
    decreases |ds|
  {
    if ds != [] {
      EvolveKeepsValid(st, w, h, ds[..|ds| - 1]);
    }
  }

  // Row-major index arithmetic.

  lemma RowZeroFits(w: nat, h: nat)
    requires 0 < h
    ensures w <= w * h
  {
  }

  lemma MulAtLeast(k: int, w: int)
    requires 1 <= k && 0 < w
    ensures w <= k * w
  {
  }

  /** Two indices in the same column are equal or at least a row apart. */
  lemma SameColumn(w: nat, i: int, j: int)
    requires 0 < w && 0 <= i && 0 <= j && i % w == j % w
    ensures i == j || i + w <= j || j + w <= i
  {
    var qi, qj := i / w, j / w;
    assert i == qi * w + i % w && j == qj * w + j % w;
    if qi > qj {
      MulAtLeast(qi - qj, w);
      assert i - j == (qi - qj) * w;
    } else if qj > qi {
      MulAtLeast(qj - qi, w);
      assert j - i == (qj - qi) * w;
    }
  }

  /** Where cell (x, y) lives in the row-major buffer. */
  function CellIndex(w: nat, h: nat, x: int, y: int): (i: int)
    requires 0 <= x < w && 0 <= y < h
    ensures 0 <= i < w * h && i % w == x
    ensures y < h - 1 <==> i + w < w * h
    ensures (y + 1) * w + x == i + w && (i + w) % w == x
    ensures y == 0 ==> i == x
  {
    IndexFacts(w, h, x, y);
    y * w + x
  }

  /** The cell above (x, y) is w places earlier in the buffer. */
  lemma IndexAbove(w: nat, h: nat, x: int, y: int)
    requires 0 <= x < w && 0 < y < h
    ensures CellIndex(w, h, x, y - 1) + w == CellIndex(w, h, x, y)
  {
  }

  /** Cell (x, y) lies in the grid, in column x, and the cell below it is
      index w further on, inside the grid exactly when y is not the last row. */
  lemma IndexFacts(w: nat, h: nat, x: int, y: int)
    requires 0 <= x < w && 0 <= y < h
    ensures 0 <= y * w + x < w * h
    ensures (y * w + x) % w == x && (y * w + x + w) % w == x
    ensures (y + 1) * w + x == y * w + x + w
    ensures y < h - 1 <==> y * w + x + w < w * h
  {
    assert (y + 1) * w == y * w + w;
    if y < h - 1 {
      MulAtLeast(h - 1 - y, w);
      assert w * h == (h - 1 - y) * w + (y + 1) * w;
    } else {
      assert w * h == (y + 1) * w;
    }
    ModOfRow(w, y, x);
    ModOfRow(w, y + 1, x);
  }

  lemma ModOfRow(w: nat, y: int, x: int)
    requires 0 <= x < w && 0 <= y
    ensures (y * w + x) % w == x
  {
    var i := y * w + x;
    var q := i / w;
    assert i == q * w + i % w;
    if q > y {
      assert q * w - y * w == (q - y) * w;
      MulAtLeast(q - y, w);
    } else if q < y {
      assert y * w - q * w == (y - q) * w;
      MulAtLeast(y - q, w);
    }
  }
}
