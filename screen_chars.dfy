/** One position of the falling-glyph grid (the `screenChar` record of matrix.c)
    and the rules by which it changes, and is drawn, once per frame. */
module ScreenChars {

  /** Number of glyphs in the alphabet that `index` points into. */
  const AlphabetSize: int := 96

  /** Longest trail a column hands to a new glyph: `rand() % 25 + 5`. */
  const MaxTrail: int := 29

  /** Largest lifetime a trailing glyph can reach: a trail that turns
      flickering after one frame gains at most `rand() % 10 + 5` = 14. */
  const MaxLife: int := MaxTrail - 1 + 14

  /** Colour pair 1 (white on black) and colour pair 2 (green on black). */
  const Bright: int := 1
  const Dim: int := 2

  datatype Option<T> = None | Some(value: T)

  datatype ScreenCharType = Spawner | StuckStatic | StuckChanging | Empty

  /** `index` is the source's `char`; every value it takes is below
      AlphabetSize, so it never leaves the range of a signed char. */
  datatype ScreenChar = ScreenChar(kind: ScreenCharType, framesLeft: int, index: int)

  /** The raw `rand()` results one cell may use in one frame: `glyph` for the
      glyph it writes below itself or re-draws, `roll` for the 1-in-80 and
      1-in-220 rolls, `extra` for the lifetime a flickering glyph gains. */
  datatype CellDraws = CellDraws(glyph: nat, roll: nat, extra: nat)

  /** What one `mvprintw` call paints: a glyph index in a colour pair. */
  datatype Glyph = Glyph(index: int, colorPair: int)

  predicate Stuck(c: ScreenChar) {
    c.kind == StuckStatic || c.kind == StuckChanging
  }

  /** The bounds every cell keeps: its glyph lies in the alphabet and its
      lifetime stays far inside the range of a C `int`. */
  predicate CharValid(c: ScreenChar) {
    && 0 <= c.index < AlphabetSize
    && -1 <= c.framesLeft <= MaxLife
    && (c.kind != Empty ==> 0 <= c.framesLeft)
    && (c.kind == Spawner || c.kind == StuckStatic ==> c.framesLeft <= MaxTrail)
  }

  /** `rand() % alphabetSize`. */
  function GlyphOf(raw: nat): (g: int)
    ensures 0 <= g < AlphabetSize
  {
    raw % AlphabetSize
  }

  /** The copy a falling glyph writes into the cell directly below it. */
  function Fallen(c: ScreenChar, d: CellDraws): (r: ScreenChar)
    requires c.kind == Spawner
    ensures r.kind == Spawner && r.framesLeft == c.framesLeft
    ensures 0 <= r.index < AlphabetSize
    ensures CharValid(c) ==> CharValid(r)
  {
    ScreenChar(Spawner, c.framesLeft, GlyphOf(d.glyph))
  }

  /** A cell's own update in a frame: the `switch` on its type. */
  function Transition(c: ScreenChar, d: CellDraws): (r: ScreenChar)
    // a cell never becomes a falling glyph through its own update
    ensures r.kind != Spawner
    // an empty cell is left as it is
    ensures c.kind == Empty ==> r == c
    // a falling glyph leaves behind a stuck glyph with its lifetime and glyph;
    // it flickers only on a 1-in-80 roll
    ensures c.kind == Spawner ==>
      && Stuck(r) && r.framesLeft == c.framesLeft && r.index == c.index
      && (r.kind == StuckChanging <==> d.roll % 80 == 0)
    // a stuck glyph is cleared exactly when its lifetime, read before the
    // decrement, is not positive, whatever the rolls say
    ensures Stuck(c) ==> (r.kind == Empty <==> c.framesLeft <= 0)
    // a live static glyph loses one frame, or on a 1-in-220 roll starts to
    // flicker and gains 5 to 14 frames; its glyph never changes
    ensures c.kind == StuckStatic ==> r.index == c.index
    ensures c.kind == StuckStatic && c.framesLeft > 0 ==>
      if d.roll % 220 == 0 then
        r.kind == StuckChanging && c.framesLeft - 1 + 5 <= r.framesLeft <= c.framesLeft - 1 + 14
      else
        r.kind == StuckStatic && r.framesLeft == c.framesLeft - 1
    // a live flickering glyph loses one frame and stays flickering
    ensures c.kind == StuckChanging && c.framesLeft > 0 ==>
      r.kind == StuckChanging && r.framesLeft == c.framesLeft - 1
    // a flickering glyph is re-drawn exactly on odd lifetimes
    ensures c.kind == StuckChanging && c.framesLeft % 2 == 0 ==> r.index == c.index
    ensures c.kind == StuckChanging && c.framesLeft % 2 != 0 ==> 0 <= r.index < AlphabetSize
    ensures CharValid(c) ==> CharValid(r)
  {
    match c.kind
    case Spawner =>
      if d.roll % 80 != 0 then c.(kind := StuckStatic) else c.(kind := StuckChanging)
    case StuckStatic =>
      if c.framesLeft <= 0 then
        c.(kind := Empty, framesLeft := c.framesLeft - 1)
      else if d.roll % 220 == 0 then
        c.(kind := StuckChanging, framesLeft := c.framesLeft - 1 + (d.extra % 10 + 5))
      else
        c.(framesLeft := c.framesLeft - 1)
    case StuckChanging =>
      var index := if c.framesLeft % 2 != 0 then GlyphOf(d.glyph) else c.index;
      if c.framesLeft <= 0 then
        ScreenChar(Empty, c.framesLeft - 1, index)
      else
        ScreenChar(StuckChanging, c.framesLeft - 1, index)
    case Empty =>
      c
  }

  /** What the cell paints in the frame, if anything. */
  function Render(c: ScreenChar, d: CellDraws): (g: Option<Glyph>)
    // empty cells paint nothing, every other cell paints one glyph
    ensures g.None? <==> c.kind == Empty
    // the glyph painted is the one the cell holds after its own update
    // (for a flickering cell: after the re-draw)
    ensures g.Some? ==> g.value.index == Transition(c, d).index
    // only static glyphs are dim; falling and flickering glyphs are bright
    ensures g.Some? ==> (g.value.colorPair == Dim <==> c.kind == StuckStatic)
    ensures g.Some? ==> (g.value.colorPair == Bright <==> c.kind != StuckStatic)
  {
    match c.kind
    case Spawner => Some(Glyph(c.index, Bright))
    case StuckStatic => Some(Glyph(c.index, Dim))
    case StuckChanging => Some(Glyph(Transition(c, d).index, Bright))
    case Empty => None
  }

  /** The cell after its own update in each of |ds| consecutive frames,
      for a cell that no falling glyph passes through meanwhile. */
  function Age(c: ScreenChar, ds: seq<CellDraws>): ScreenChar
    decreases |ds|
  {
    if ds == [] then c else Age(Transition(c, ds[0]), ds[1..])
  }

  /** An empty cell stays empty. */
  lemma {:induction false} EmptyStays(c: ScreenChar, ds: seq<CellDraws>)
    requires c.kind == Empty
    ensures Age(c, ds) == c
    decreases |ds|
  {
    if ds != [] {
      EmptyStays(Transition(c, ds[0]), ds[1..]);
    }
  }

  /** A flickering glyph with lifetime f stays flickering, losing one frame per
      frame, for f frames, and is empty from the (f+1)-th frame on: never a
      frame early or late. */
  lemma {:induction false} ChangingLifetime(c: ScreenChar, ds: seq<CellDraws>)
    requires c.kind == StuckChanging && 0 <= c.framesLeft
    ensures Age(c, ds).kind == Empty <==> |ds| > c.framesLeft
    ensures |ds| <= c.framesLeft ==>
      Age(c, ds).kind == StuckChanging && Age(c, ds).framesLeft == c.framesLeft - |ds|
    decreases |ds|
  {
    if ds != [] {
      var next := Transition(c, ds[0]);
      if c.framesLeft == 0 {
        EmptyStays(next, ds[1..]);
      } else {
        ChangingLifetime(next, ds[1..]);
      }
    }
  }

  /** A static glyph with lifetime f is still visible for its first f frames
      (a flicker roll only lengthens its life) and is empty after f + 15
      frames at most. */
  lemma {:induction false} StaticLifetime(c: ScreenChar, ds: seq<CellDraws>)
    requires c.kind == StuckStatic && 0 <= c.framesLeft
    ensures |ds| <= c.framesLeft ==> Age(c, ds).kind != Empty
    ensures |ds| > c.framesLeft + 14 ==> Age(c, ds).kind == Empty
    decreases |ds|
  {
    if ds != [] {
      var next := Transition(c, ds[0]);
      if c.framesLeft == 0 {
        EmptyStays(next, ds[1..]);
      } else if next.kind == StuckStatic {
        StaticLifetime(next, ds[1..]);
      } else {
        ChangingLifetime(next, ds[1..]);
      }
    }
  }
}
