/** The per-column scheduler (the `charSpawner` record of matrix.c). Its one
    integer `time` is a countdown to the next spawn while the column waits,
    and the trail length of the next glyph once the column is armed. */
module CharSpawners {
  import opened ScreenChars

  datatype CharSpawner = CharSpawner(spawning: bool, time: int)

  /** The raw `rand()` results a column uses at start-up: `hot` for the
      1-in-150 roll, `time` for the first countdown or trail. */
  datatype InitDraws = InitDraws(hot: nat, time: nat)

  /** The raw `rand()` results a column may use in one frame: the new glyph,
      the delay added after a spawn, and the trail drawn when it re-arms. */
  datatype SpawnDraws = SpawnDraws(glyph: nat, delay: nat, trail: nat)

  /** A column's new state and, when it spawned, the cell it wrote to row 0. */
  datatype Spawned = Spawned(spawner: CharSpawner, cell: Option<ScreenChar>)

  /** What a waiting column's countdown starts from before its random delay
      is added; the source adds to memory it never initialised. */
  const Baseline: int := 0

  /** Longest countdown a column can hold: a spawn adds at most 299 to a
      trail of at most MaxTrail, and the frame's decrement follows. */
  const MaxCountdown: int := MaxTrail + 299 - 1

  /** The bounds every column keeps: the counter never goes negative and an
      armed column holds a trail length a glyph may carry. */
  predicate SpawnerValid(s: CharSpawner) {
    && 0 <= s.time <= MaxCountdown
    && (s.spawning ==> 5 <= s.time <= MaxTrail)
  }

  /** Start-up of one column: armed with probability 1/150. */
  function InitSpawner(d: InitDraws): (s: CharSpawner)
    ensures s.spawning <==> d.hot % 150 == 1
    ensures s.spawning ==> 5 <= s.time <= 19
    ensures !s.spawning ==> Baseline <= s.time <= Baseline + 299
    ensures SpawnerValid(s)
  {
    if d.hot % 150 == 1 then CharSpawner(true, d.time % 15 + 5)
    else CharSpawner(false, Baseline + d.time % 300)
  }

  /** First half of a column's frame: an armed column writes a falling glyph
      whose lifetime is its counter, then adds the delay to the next spawn. */
  function Spawn(s: CharSpawner, d: SpawnDraws): (r: Spawned)
    ensures r.cell.Some? <==> s.spawning
    ensures s.spawning ==>
      && r.cell.value.kind == Spawner
      && r.cell.value.framesLeft == s.time
      && 0 <= r.cell.value.index < AlphabetSize
    ensures s.spawning ==> !r.spawner.spawning && 150 <= r.spawner.time - s.time <= 299
    ensures !s.spawning ==> r.spawner == s
  {
    if s.spawning then
      Spawned(CharSpawner(false, s.time + (d.delay % 150 + 150)),
              Some(ScreenChar(Spawner, s.time, GlyphOf(d.glyph))))
    else
      Spawned(s, None)
  }

  /** Second half: the counter is compared with 0 before it is decremented;
      at 0 the column arms itself with a trail of 5 to 29. */
  function Countdown(s: CharSpawner, d: SpawnDraws): (r: CharSpawner)
    ensures r.spawning <==> s.spawning || s.time == 0
    ensures s.time == 0 ==> 5 <= r.time <= MaxTrail
    ensures s.time != 0 ==> r.time == s.time - 1
  {
    var t := s.time;
    var s' := s.(time := t - 1);
    if t == 0 then s'.(spawning := true, time := d.trail % 25 + 5) else s'
  }

  /** One column's whole frame: spawn if armed, then count down. */
  function ColumnStep(s: CharSpawner, d: SpawnDraws): (r: Spawned)
    ensures r.cell.Some? <==> s.spawning
    ensures SpawnerValid(s) ==> SpawnerValid(r.spawner)
    ensures SpawnerValid(s) && r.cell.Some? ==> CharValid(r.cell.value)
    // a valid column arms exactly when it was waiting with its counter at 0
    ensures SpawnerValid(s) ==> (r.spawner.spawning <==> !s.spawning && s.time == 0)
    // a waiting column's counter drops by exactly one
    ensures !s.spawning && s.time != 0 ==> r.spawner == CharSpawner(false, s.time - 1)
    // a valid armed column spawns and waits at least 150 frames before re-arming
    ensures SpawnerValid(s) && s.spawning ==> 149 <= r.spawner.time - s.time <= 298
  {
    var spawned := Spawn(s, d);
    Spawned(Countdown(spawned.spawner, d), spawned.cell)
  }

  /** A column after |ds| consecutive frames. */
  function ColumnRun(s: CharSpawner, ds: seq<SpawnDraws>): CharSpawner
    decreases |ds|
  {
    if ds == [] then s else ColumnRun(ColumnStep(s, ds[0]).spawner, ds[1..])
  }

  /** A waiting column with counter t counts down one per frame: after
      k <= t frames it is still waiting, with counter t - k. */
  lemma {:induction false} Waiting(s: CharSpawner, ds: seq<SpawnDraws>)
    requires SpawnerValid(s) && !s.spawning && |ds| <= s.time
    ensures ColumnRun(s, ds) == CharSpawner(false, s.time - |ds|)
    decreases |ds|
  {
    if ds != [] {
      Waiting(ColumnStep(s, ds[0]).spawner, ds[1..]);
    }
  }

  /** A waiting column with counter t is armed after exactly t + 1 frames. */
  lemma {:induction false} Rearms(s: CharSpawner, ds: seq<SpawnDraws>)
    requires SpawnerValid(s) && !s.spawning && |ds| == s.time + 1
    ensures ColumnRun(s, ds).spawning
    ensures 5 <= ColumnRun(s, ds).time <= MaxTrail
  {
    var k := |ds| - 1;
    Waiting(s, ds[..k]);
    ColumnRunSplit(s, ds, k);
  }

  /** After a spawn a column stays unarmed for at least 155 frames, so two
      glyphs falling in one column start at least 156 frames apart. */
  lemma {:induction false} SpawnSpacing(s: CharSpawner, ds: seq<SpawnDraws>)
    requires SpawnerValid(s) && s.spawning && 1 <= |ds| <= 155
    ensures !ColumnRun(s, ds).spawning
  {
    var next := ColumnStep(s, ds[0]).spawner;
    Waiting(next, ds[1..]);
  }

  /** Running k frames and then the rest is running them all. */
  lemma {:induction false} ColumnRunSplit(s: CharSpawner, ds: seq<SpawnDraws>, k: nat)
    requires k <= |ds|
    ensures ColumnRun(s, ds) == ColumnRun(ColumnRun(s, ds[..k]), ds[k..])
    decreases k
  {
    if k > 0 {
      assert ds[1..][..k - 1] == ds[..k][1..];
      assert ds[1..][k - 1..] == ds[k..];
      ColumnRunSplit(ColumnStep(s, ds[0]).spawner, ds[1..], k - 1);
    } else {
      assert ds[k..] == ds;
    }
  }
}
