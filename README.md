# matrix.c falling-glyph simulation in Dafny

matrix.c fills a terminal with falling katakana, in the style of the film
"The Matrix". The screen is a grid of `w` columns by `h` rows. The simulation
behind it has two parts, and both update their arrays in place once per frame:

- **Column spawners** (`charSpawner`). There is one per column. Its single
  `time` field is a countdown while the column waits and a trail length once
  the column is armed. An armed column writes a falling glyph into row 0. It
  then waits its trail length plus 150 to 299 frames, checks its counter
  against 0 before the decrement, and re-arms with a trail of 5 to 29 frames.
- **Cells** (`screenChar`). These form a row-major buffer of `w * h` cells,
  each in one of four states:
  - a falling glyph (`spawner`);
  - a static trailing glyph (`stuckStatic`);
  - a flickering trailing glyph (`stuckChanging`);
  - `empty`.

  The sweep visits columns right to left and rows bottom to top. A falling
  glyph copies itself into the cell below, which the sweep has already
  visited, and then leaves a trailing glyph behind. So a glyph falls exactly
  one row per frame.

The project has four modules:

- `ScreenChars` (screen_chars.dfy): the cell record and its per-frame update
  `Transition`, the copy a falling glyph writes below itself (`Fallen`), and
  what a cell paints (`Render`). It also proves lemmas about how long trailing
  glyphs live.
- `CharSpawners` (char_spawners.dfy): the column record, its start-up, and its
  per-frame step. It also proves lemmas about the spawn schedule.
- `Frames` (frames.dfy): the whole frame as values.
  - `SpawnPhase` is the spawner loop.
  - `CellPhase` is the cell sweep, defined so that every cell is decided from
    the grid as it stood when the sweep began. This is the reference for the
    "no cascade" property.
  - `Frame`, `Evolve` and `Film` cover one frame, many frames, and what those
    frames paint.
- `Matrix` (matrix.dfy): class `Grid`, holding the source's two arrays. Its
  methods update them in place, field by field, with the source's loops. Each
  method is proved against the functions of `Frames`.

Random numbers are parameters. Every `rand()` call of the source is a raw
natural number, supplied in one of three records:

- `InitDraws`: per column, at start-up;
- `SpawnDraws`: per column, per frame;
- `CellDraws`: per cell, per frame.

The model applies the source's `% n` to these values itself, so each bound
(`% 96`, `% 150 + 150`, `% 25 + 5`, `% 80`, `% 220`, `% 10 + 5`) is proved,
not assumed. The keypress loop becomes a finite sequence of frames.

A flickering glyph is drawn with colour pair 1, the same as a falling glyph
(matrix.c:179), not dim like a static one; `Render` does the same. Only
`stuckStatic` is drawn with pair 2.

## Model

| member | source | states |
|---|---|---|
| ScreenChars.GlyphOf | matrix.c:108 | every glyph index drawn with `rand() % alphabetSize` lies in [0, 96) |
| ScreenChars.Fallen | matrix.c:140-146 | the copy a falling glyph writes below itself is a falling glyph with the same lifetime and a fresh in-range glyph |
| ScreenChars.Transition | matrix.c:148-187 | a cell's own update. It never produces a falling glyph, and an empty cell stays unchanged. A falling glyph becomes stuck with the same lifetime and glyph, and flickers iff the 1-in-80 roll hits. A stuck glyph becomes empty iff its lifetime before the decrement is <= 0, whatever the roll. A live static glyph loses 1 frame, or on the 1-in-220 roll flickers with 5 to 14 frames more. A flickering glyph loses 1 frame, and its glyph is re-drawn only on odd lifetimes. All cell bounds are preserved |
| ScreenChars.Render | matrix.c:135-187 | a cell paints nothing iff it is empty. The glyph painted is the one the cell holds after a flicker re-draw. Colour pair 2 is used iff the cell is static; every other painted cell uses pair 1 |
| ScreenChars.EmptyStays | matrix.c:186-187 | an empty cell stays empty over any number of frames |
| ScreenChars.ChangingLifetime | matrix.c:174-185 | a flickering glyph with lifetime f flickers on for exactly f frames, losing one per frame, and is empty from frame f+1 |
| ScreenChars.StaticLifetime | matrix.c:160-185 | a static glyph with lifetime f is still visible after f frames and is empty after at most f+15 frames |
| CharSpawners.InitSpawner | matrix.c:79-91 | a column is armed at start-up iff its 1-in-150 roll hits; it is then armed with a trail in [5, 19], otherwise it waits with its counter starting in [0, 299] above the baseline |
| CharSpawners.Spawn | matrix.c:104-115 | an armed column writes a falling glyph whose lifetime is its counter and whose glyph is in range; it disarms and its counter grows by 150 to 299; a waiting column is unchanged |
| CharSpawners.Countdown | matrix.c:117-123 | the counter is tested before the decrement: the column becomes armed iff it was armed or the counter was 0; at 0 the trail is reset to [5, 29], otherwise the counter drops by exactly 1 |
| CharSpawners.ColumnStep | matrix.c:101-124 | a column's whole frame. It spawns iff it was armed. A valid column re-arms iff it was waiting at 0, and a waiting counter drops by exactly 1. An armed column's counter ends 149 to 298 above the trail it handed out. Column bounds are preserved |
| CharSpawners.Waiting | matrix.c:116-123 | a waiting column with counter t is still waiting after k <= t frames, with counter t - k |
| CharSpawners.Rearms | matrix.c:116-123 | a waiting column with counter t is armed after exactly t + 1 frames, with a trail in [5, 29] |
| CharSpawners.SpawnSpacing | matrix.c:104-123 | after spawning, a column is not armed again for at least 155 frames |
| Frames.SpawnPhase | matrix.c:101-124 | the spawner loop changes only row 0, and only in armed columns, where it writes a falling glyph with the column's trail as lifetime; every column takes its ColumnStep; validity is preserved |
| Frames.CellPhase | matrix.c:128-190 | no cascade: after the sweep a cell holds a falling glyph iff the cell directly above held one before the sweep, with that glyph's lifetime and an in-range glyph; every other cell changes only by its own Transition; validity is preserved |
| Frames.Screen | matrix.c:127-190 | the frame paints exactly the non-empty cells, each with the glyph it holds after its own update, in pair 2 iff the cell is static and pair 1 otherwise |
| Frames.Frame | matrix.c:101-190 | after a frame a cell holds a falling glyph iff the cell above held one, or is a row-0 cell of a column armed at the frame's start. So row 0 never holds a falling glyph between frames. Validity is preserved |
| Frames.EvolveKeepsValid | matrix.c:95-198 | glyph, lifetime and counter bounds hold after any number of frames |
| Matrix.Grid.constructor | matrix.c:70-91 | after start-up every cell is empty and every column is InitSpawner of its draws |
| Matrix.Grid.SpawnerStep | matrix.c:101-124 | the in-place spawner loop leaves the grid equal to SpawnPhase of the old grid |
| Matrix.Grid.CellStep | matrix.c:132-188 | the `switch` on cell (x, y) paints Render of the cell and stores its Transition. Above the bottom row, a falling glyph also stores its Fallen copy one row down. No other cell changes |
| Matrix.Grid.UpdateCells | matrix.c:127-190 | the nested reverse loops leave the buffer equal to CellPhase of the old buffer, and the screen equal to Screen of it |
| Matrix.Grid.UpdateColumn | matrix.c:130-189 | the bottom-to-top loop over one column completes that column of CellPhase and of Screen, and leaves columns to its left untouched |
| Matrix.Grid.Step | matrix.c:100-193 | one frame in place equals Frame of the old grid, and paints FrameScreen of it |
| Matrix.Grid.Run | matrix.c:95-198 | after any sequence of frames the grid equals Evolve of the start and the screens painted equal Film of it; validity is kept |

## Left out

- Terminal set-up, teardown and drawing are not modelled: `initscr`, `has_colors`, `raw`, `noecho`, `curs_set`, `nodelay`, `scrollok`, `start_color`, `init_pair`, `clear`, `attron`, `mvprintw`, `refresh`, `endwin` (matrix.c:37-51, 127, 193, 201). A frame's drawing is the pure value `Render`/`Screen`: glyph index and colour pair per cell, or nothing.
- The keypress guard `getch() == -1` (matrix.c:95) is input; `Run` takes the frames that pass before a key is pressed as a finite sequence.
- Frame pacing with `clock_gettime` and `usleep` (matrix.c:94-98, 196-197) is wall-clock timing and is not modelled, including its mis-computed sleep when the nanosecond field wraps between the two clock reads.
- `srand(time(NULL))` and `rand()` (matrix.c:54) are replaced by raw draws passed in; the model does not say which draws occur or how they are distributed, only what each value does.
- The locale, the wide-character alphabet, the halving of the terminal width and the `x*2` screen column (matrix.c:34, 57-68) are presentation; only `alphabetSize = 96` is kept, and a painted glyph is its alphabet index.
- Allocation failure of `malloc` (matrix.c:71, 78) is not modelled; the arrays are created with `new`.
- CharSpawners.InitSpawner: a waiting column's first countdown is added to an uninitialised value in the source (matrix.c:89); the model uses an explicit baseline of 0, so the first countdown is in [0, 299].
- Matrix.Grid.constructor: the source leaves the lifetime and glyph of the initial empty cells unset; the model sets both to 0 (nothing reads them before they are overwritten).
- Matrix.Grid.constructor: requires at least one row; with zero rows the source's spawner loop writes past the empty buffer, which the model excludes rather than reproduces.
- Matrix.Grid.CellStep: the source updates the cell through a pointer into the buffer; the model reads the cell into a local value and stores it back at the end of its case, which has the same effect because nothing else writes that cell in between.
- C `int` overflow is not modelled: every lifetime and counter is proved to stay between -1 and a few hundred (`CharValid`, `SpawnerValid`), far inside 32-bit range.
- The source's rand() stream is one sequence consumed in program order; the model gives each column and each cell its own draw slots, which covers every value the stream can produce at each call but does not tie them to one generator.
