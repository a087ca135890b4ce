# ASCII-art video converter: quantisation, glyph cache and frame drawing

`OCV/main.py` plays a video as coloured ASCII art. `ArtConverter` does two
main things:

- At start-up, `create_palette` builds a glyph cache. For every character of
  `ASCII_CHARS` and every representative colour of a cube of evenly spaced
  channel levels, it renders the glyph. It stores the glyph under the
  character and the colour's quantised key.
- For each frame, `draw_converted_image` fills the surface with black. It
  then walks the grid `x` in `range(0, WIDTH, CHAR_STEP)`, `y` in
  `range(0, HEIGHT, CHAR_STEP)`. Each cell gets a character index
  `grey // ASCII_COEFF`. Index 0, the blank, is skipped. Every other cell
  blits `PALETTE[ASCII_CHARS[index]][rgb // COLOR_COEFF]` at `(x, y)`.

This project models that core in Dafny. The files are:

- `quantize.dfy`: the bucket widths `ASCII_COEFF = 255 // (len - 1)` and
  `COLOR_COEFF = int(255 / (N - 1))`, the `np.linspace` levels in integer
  form `k * 255 / (N - 1)`, and the floor divisions that turn samples into
  indices and keys. numpy's `array // 0` gives 0 with a warning, and
  `FloorDiv` models that.
- `palette.dfy`: the colour cube in the list comprehension's order, each
  character's table as insertion into a map, and `create_palette` as a
  method with nested loops. The method is proved equal to a functional
  specification. With 0 or 1 levels `np.linspace` returns a NaN step and
  `int(NaN)` raises `ValueError`; with a negative count `np.linspace` itself
  raises `ValueError`.
- `frame.dfy`: Python's `range`, the surface as a class whose `blits` field
  lists the placements since the last fill, and `draw_converted_image` as a
  method with nested loops. The method is proved equal to a fold over the
  grid. An `IndexError` or `KeyError` ends the loops and leaves the earlier
  blits on the surface.
- `frame_properties.dfy`: what one call leaves on the surface: which cells
  are sampled, which glyph each blit is, blit order and count, and what the
  surface shows.
- `pipeline.dfy`: the cache covers every key the frame looks up when both
  `len(ASCII_CHARS) - 1` and `COLOR_LVL - 1` divide 255, which includes the
  shipped 16 and 16. With `COLOR_LVL = 100` it does not: the lookup raises
  `KeyError`.

Glyph rendering (`font.render`) is a function parameter `render` with an
arbitrary glyph type `G`. Frames are given as two grids indexed `[x][y]`:
grey values in 0..255 and RGB pixels.

The luminance bucket width is `255 // (len(ASCII_CHARS) - 1)`
(`OCV/main.py:32`). For the set `" #"` the width is 255, and only grey 255
selects `#` (`Quantize.TwoCharacterSet`). Every grey value quantises to an
index inside the character set when `len - 1` divides 255
(`Quantize.IndexInRange`). Otherwise it need not: with 17 characters, grey
255 gets index 17 (`Quantize.SeventeenCharacters`), and `ASCII_CHARS[17]`
raises `IndexError`.

## Model

| member | source | states |
|---|---|---|
| `Quantize.FloorDiv` | OCV/main.py:46 | For a positive width the result is the floor quotient (`q*d <= v < q*d + d`), non-negative for a non-negative sample; a zero width gives 0 |
| `Quantize.StepWidth` | OCV/main.py:32 | The width `w` of `intervals` buckets over 0..255 satisfies `w*intervals <= 255 < (w+1)*intervals` |
| `Quantize.AsciiCoeff` | OCV/main.py:32 | `ASCII_COEFF` is the floor of 255 over `len - 1`: `w*(len-1) <= 255 < (w+1)*(len-1)` |
| `Quantize.ColorCoeff` | OCV/main.py:39-42 | `COLOR_COEFF` is the floor of 255 over `N - 1`: `w*(N-1) <= 255 < (w+1)*(N-1)` |
| `Quantize.CharIndex` | OCV/main.py:64 | A grey value's index `i` is its bucket: `i*w <= grey < i*w + w` for a positive width, 0 for width 0, never negative |
| `Quantize.ColorKey` | OCV/main.py:46 | Each channel of a colour's key is that channel's bucket under the width, 0 for width 0, never negative for a pixel |
| `Quantize.Levels` | OCV/main.py:39 | `levels` channel values, the first 0 and the last 255, all within 0..255 |
| `Quantize.Level` | OCV/main.py:39 | Level k of an evenly spaced scale lies in 0..255; level 0 is 0 and the last level is 255 |
| `Quantize.ExactWidth` | OCV/main.py:32 | When the number of intervals divides 255, the width times the intervals is exactly 255 and the width is at least 1 |
| `Quantize.DefaultWidths` | OCV/main.py:31-32 | With the 16-character set and 16 levels both widths are 17, and every grey value 0..255 gives an index into the character set |
| `Quantize.IndexInRange` | OCV/main.py:64-66 | When the intervals divide 255, every sample 0..255 quantises to 0..intervals, and 255 quantises to intervals |
| `Quantize.ZeroIndexIffDark` | OCV/main.py:69-70 | A grey value gets index 0, the skipped blank, exactly when it is below the bucket width |
| `Quantize.LevelKey` | OCV/main.py:39-46 | Under exact buckets, level k equals k times the width, and its key is k |
| `Quantize.TwoCharacterSet` | OCV/main.py:32 | For `" #"` the width is 255, and only grey 255 selects `#` |
| `Quantize.SeventeenCharacters` | OCV/main.py:32 | For 17 characters the width is 15, and grey 255 gets index 17, past the end of the set |
| `Quantize.SampleQuantisation` | OCV/main.py:64-66 | Grey 200 selects index 11, which is `8`; colour (200, 10, 250) has key (11, 0, 14) |
| `Palette.ColorPalette` | OCV/main.py:40 | Every colour of the cube of valid levels is a valid pixel |
| `Palette.InCube` | OCV/main.py:40 | A colour is in the comprehension exactly when each channel is one of the levels |
| `Palette.CubeLength` | OCV/main.py:40 | The comprehension has `len(rs) * len(gs) * len(bs)` colours |
| `Palette.CubeDistinct` | OCV/main.py:40 | Distinct levels give a cube without repeated colours |
| `Palette.CharTable` | OCV/main.py:44-47 | The keys of a character's table are exactly the keys of the colours inserted |
| `Palette.CharTableAt` | OCV/main.py:45-47 | A colour whose key no other colour shares is stored under its key, rendered in that colour |
| `Palette.PaletteOf` | OCV/main.py:41-48 | The dictionary has exactly one entry per character of the set, and each entry's keys are the keys of the colours |
| `Palette.PaletteSpec` | OCV/main.py:38-48 | The palette built from N levels has one entry per character, each keyed by the keys of the cube's colours |
| `Palette.RenderCharacter` | OCV/main.py:44-47 | The inner loop leaves `char_palette` equal to the character's table |
| `Palette.CreatePalette` | OCV/main.py:38-49 | Fewer than two levels raise `ValueError`; otherwise the result is the specified palette and `int(step)` |
| `Palette.PaletteEntries` | OCV/main.py:41-48 | The palette has exactly one entry per distinct character, each holding that character's table |
| `Palette.CubeColorIsScaledKey` | OCV/main.py:39-46 | Under exact buckets every cube colour is its key times the width, and the key is in range |
| `Palette.ScaledKeyInCube` | OCV/main.py:39-46 | Under exact buckets every in-range key is the key of a cube colour, its key times the width |
| `Palette.ExactCharTable` | OCV/main.py:39-47 | Under exact buckets a character's keys are exactly [0, N)^3, and key k holds the glyph in the representative colour `k * width` |
| `Palette.ExactCharTableSize` | OCV/main.py:39-47 | Under exact buckets each character's table holds N^3 glyphs |
| `Palette.DefaultCharTable` | OCV/main.py:39-47 | With 16 levels a character's table holds 4096 keys, exactly [0, 16)^3, key (i, j, l) holding the glyph in colour (17i, 17j, 17l) |
| `Palette.DefaultPalette` | OCV/main.py:38-49 | The shipped palette has 16 entries, including the space, each a 4096-key table of glyphs in the representative colours |
| `Frame.RangeMembers` | OCV/main.py:67-68 | `v` is in `range(start, stop, step)` exactly when `start <= v < stop` and `v - start` is a multiple of `step` |
| `Frame.RangeIncreasing` | OCV/main.py:67-68 | `range` is strictly increasing and stays in `[start, stop)` |
| `Frame.RangeLength` | OCV/main.py:67-68 | `range(start, stop, step)` has `ceil((stop - start) / step)` elements |
| `Frame.Range` | OCV/main.py:67-68 | An empty range when `start >= stop`; otherwise it starts at `start`, and its last element is below `stop` with the next step at or past `stop` |
| `Frame.View` | OCV/main.py:62-73 | The cell of the last blit shows that blit's glyph |
| `Frame.CellAt` | OCV/main.py:69-73 | A cell is blank exactly when its index is 0, raises `IndexError` exactly when a non-zero index is past the set, and yields a glyph exactly when the character and key are in the cache, that entry being the glyph; it raises nothing else |
| `Frame.Step` | OCV/main.py:69-73 | Once an exception is pending nothing changes; otherwise the step raises exactly when the cell raises, with the cell's exception, and a blank or raising cell blits nothing |
| `Frame.DrawColumn` | OCV/main.py:68-73 | A pending exception leaves the column unchanged; the inner loop adds at most one blit per row; a new exception is `IndexError` or `KeyError` |
| `Frame.DrawFrame` | OCV/main.py:67-73 | The loops raise nothing but `IndexError` or `KeyError` |
| `Frame.Converted` | OCV/main.py:61-73 | A call raises nothing but `IndexError` or `KeyError` |
| `Frame.Surface.Fill` | OCV/main.py:62 | Filling clears the surface to black: no placements remain |
| `Frame.Surface.Blit` | OCV/main.py:73 | A blit appends one placement of the glyph at (x, y) |
| `Frame.DrawConvertedImage` | OCV/main.py:61-73 | The surface's placements and the exception raised are those of the fold over the sampled grid, whatever was on the surface before |
| `Frame.DrawColumnCells` | OCV/main.py:68-73 | The inner loop appends what the fold over the column's rows appends, and stops at its first exception |
| `Frame.DrawCell` | OCV/main.py:69-73 | One cell skips index 0, raises `IndexError` past the set or `KeyError` on a missing key, and otherwise blits the cached glyph |
| `Frame.ColumnStops` | OCV/main.py:68-73 | A column that raised at row j leaves what it had at row j |
| `Frame.FrameStops` | OCV/main.py:67-73 | A frame that raised in column i leaves what it had at column i |
| `FrameProperties.ColumnBlits` | OCV/main.py:68-73 | The inner loop keeps earlier blits and appends, in increasing y, only the glyphs of cells in this column |
| `FrameProperties.ColumnRaises` | OCV/main.py:68-73 | The inner loop raises exactly when an earlier exception is pending or some cell of the column raises |
| `FrameProperties.ColumnComplete` | OCV/main.py:68-73 | Without an exception, every glyph cell of the column is blitted and earlier blits remain |
| `FrameProperties.FrameBlits` | OCV/main.py:67-73 | Every blit is at a visited cell and is that cell's glyph; blits come x-major then by y |
| `FrameProperties.FrameCount` | OCV/main.py:67-68 | The loops blit at most `len(xs) * len(ys)` times |
| `FrameProperties.FrameRaises` | OCV/main.py:67-73 | The loops raise exactly when some visited cell raises |
| `FrameProperties.FrameComplete` | OCV/main.py:67-73 | Without an exception, every visited glyph cell is blitted |
| `FrameProperties.ViewKeys` | OCV/main.py:73 | The surface shows a glyph exactly at the cells blitted since the fill |
| `FrameProperties.ViewOf` | OCV/main.py:73 | When the blits come in loop order, each blitted cell shows its own glyph |
| `FrameProperties.VisitedIffSampled` | OCV/main.py:67-68 | The loops visit (x, y) exactly when both are in the frame and multiples of `CHAR_STEP` |
| `FrameProperties.ConversionRaises` | OCV/main.py:69-73 | A call raises exactly when some sampled cell raises |
| `FrameProperties.ConversionBlits` | OCV/main.py:67-73 | Every blit is at a sampled cell with a non-zero index, is `PALETTE[ASCII_CHARS[index]][key]` of that cell, and blits come in loop order |
| `FrameProperties.ConversionView` | OCV/main.py:62-73 | After a call without an exception, the surface shows a glyph exactly at the sampled non-blank cells, each its own glyph; all else is black |
| `FrameProperties.BlitBound` | OCV/main.py:67-68 | The loops visit `ceil(WIDTH / CHAR_STEP)` columns and rows to match, and a call blits at most their product |
| `FrameProperties.SampleGrid` | OCV/main.py:67-68 | A 120 x 90 frame with `CHAR_STEP` 6 visits 20 x 15 cells and gets at most 300 blits |
| `Pipeline.NeverRaises` | OCV/main.py:64-73 | When both `len - 1` and `COLOR_LVL - 1` divide 255, no cell of any frame raises, so a call never raises |
| `Pipeline.CellCovered` | OCV/main.py:69-73 | Under that condition one cell's index is in range and its key is in the cache |
| `Pipeline.NoKeyError` | OCV/main.py:66-73 | When `COLOR_LVL - 1` divides 255, for any character set of at least two characters, no cell of any frame raises `KeyError` |
| `Pipeline.KeyCached` | OCV/main.py:66-73 | Under that condition a cell whose index is inside the set finds its key in its character's table |
| `Pipeline.ConverterOf` | OCV/main.py:31-36 | The converter is valid exactly when `CHAR_STEP` is positive and the frame size non-negative, and its cache has one entry per character of the set |
| `Pipeline.DefaultNeverRaises` | OCV/main.py:31-36 | With the shipped 16 characters and 16 levels, no frame and no `CHAR_STEP` makes a call raise |
| `Pipeline.NoHundredLevelInBucketFour` | OCV/main.py:39-42 | With 100 levels and width 2, no level falls in the bucket [8, 10) |
| `Pipeline.HundredLevelsKeyMissing` | OCV/main.py:39-47 | With 100 levels no character's table has key (4, 127, 127) |
| `Pipeline.HundredLevelsPaletteMisses` | OCV/main.py:43-48 | With 100 levels, every character's cache entry lacks key (4, 127, 127) |
| `Pipeline.HundredLevelsSample` | OCV/main.py:64-66 | In the 1 x 1 frame of grey 181 and colour (8, 255, 255), with 100 levels, the cell's index is 10 and its key is (4, 127, 127) |
| `Pipeline.HundredLevelsCell` | OCV/main.py:69-73 | With 100 levels that cell raises `KeyError` |
| `Pipeline.HundredLevelsMiss` | OCV/main.py:61-73 | With 100 levels a call on that frame raises `KeyError` with nothing blitted |
| `Pipeline.MissRaises` | OCV/main.py:73 | A non-blank cell whose key is missing from its character's table raises `KeyError` |

## Left out

- `accelerate_conversion` (`OCV/main.py:6-17`) is not modelled. It is never called: its one call is commented out.
- Video capture and decoding (`VideoCapture`, `read`, `transpose`, `cvtColor`) and the `exit()` at the end of the stream are I/O. Each call takes the frame as given grids indexed `[x][y]`, so `WIDTH` is the transposed frame's first dimension.
- pygame start-up, the window, the font and glyph rasterisation are library calls. `render` is a parameter; glyph bitmaps and their overlap are not modelled. The surface is kept at placement granularity.
- The event loop, FPS caption, `display.flip` and `clock.tick` in `run` are UI and timing. `draw` is unused.
- `CHAR_STEP = int(font_size * 0.6)` is floating point. It is taken as an integer of at least 1. A step of 0 would make `range` raise, and that is not modelled.
- `np.linspace` computes floats and truncates them. The model uses the exact integer levels `k * 255 / (N - 1)`. These equal numpy's levels when `N - 1` divides 255, which is where the general claims are made. The `COLOR_LVL = 100` lemmas also hold for numpy: the width is 2 in both forms, and they rest on levels 3 and 4, which are 7 (7.73 in floating point) and 10 (10.30) in both forms, far from an integer boundary.
- `ASCII_COEFF` with a one-character set would raise `ZeroDivisionError` on Python integers. `AsciiCoeff` requires at least two characters, since the set is a fixed 16-character string.
- `create_palette` iterates over `dict.fromkeys(ASCII_CHARS)`, so each distinct character is visited once. `CreatePalette` iterates over the characters themselves. A repeated character rewrites an identical table, so the dictionary built is the same.
- Building the palette twice gives the same dictionary. This follows from `CreatePalette`'s functional postcondition and is not stated as a separate lemma.
