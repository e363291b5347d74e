# ASCII art converter: glyph mapping and grid layout

This project models the pixel-to-glyph pipeline of a small Python tool
(`main.py`) that turns an RGB image into ASCII art and renders that art back
onto a coloured image. It has two parts.

- **Glyph mapping** (`image_to_ascii`). The ramp is every printable ASCII
  character, code points 32 to 126 in ascending order. The image is walked
  row by row. Each pixel's weighted luminance 0.299 r + 0.587 g + 0.114 b,
  divided by 255, is multiplied by 94 and truncated to a ramp index. The
  character at that index is appended to the current row, and each finished
  row is appended to the art.
- **Grid layout** (`save_ascii_as_image`). A black canvas is created,
  `width * font_size` wide and `height * line_height` tall. The art is then
  walked row by row. Two accumulators, `x_position` and `y_position`, advance
  by `font_size` per character and by `line_height` per row. For each
  character, one text draw is issued in the colour of the source pixel at the
  same grid coordinate.

Files:

- `pixels.dfy` (module `Pixels`): 8-bit channels, `Rgb` colours, and the
  rectangular source `Image` with its pixel accessor `At(x, y)`.
- `glyph_mapping.dfy` (module `GlyphMapping`): the ramp, the exact integer
  form of the brightness-to-index mapping, and the nested-loop method
  `ImageToAscii`. That method is proved against the predicate `IsAsciiArtOf`.
- `rasterizer.dfy` (module `Rasterizer`): a `Canvas` class that records the
  text draws issued on it, in order. `SaveAsciiAsImage` mirrors the source's
  accumulator loops and is proved to draw exactly `Layout(art, ...)`. The
  lemmas about `Layout` give position, order, count and colour of every draw.

The brightness is modelled exactly. With r, g, b in 0..255, the source's
index `int((0.299r + 0.587g + 0.114b) / 255 * 94)` is, over the rationals,
`94 * (299r + 587g + 114b) div 255000`. The weights add up to 1000, so this
index always lies in 0..94. The source does no clamping, and the model needs
none.

Facts about the code that the model keeps:

- The code does no resampling or aspect-ratio correction. The art has
  exactly the image's width and height (main.py:8, 15-17).
- The horizontal step and the canvas-width factor are `font_size` itself.
  Only the vertical step, `line_height`, comes from the font (main.py:36-37,
  51).
- `save_ascii_as_image` walks the art it is given, not `width` by `height`
  (main.py:45-47). `width` and `height` only size the canvas. When a
  character of the art has no pixel behind it, `getpixel` raises. The broad
  handler then catches the error and the canvas is never saved (main.py:49,
  58). This is modelled as the `PixelOutOfRange` outcome.

## Model

| member | source | states |
|---|---|---|
| `GlyphMapping.AsciiChars` | main.py:11 | the ramp has 95 entries and entry i has code point 32 + i |
| `GlyphMapping.RampStrictlyAscending` | main.py:11 | the ramp is strictly ascending by code point, from `' '` to `'~'` |
| `GlyphMapping.WeightedSum` | main.py:19 | the scaled luminance 299r + 587g + 114b of any pixel is at most 255000, so brightness is at most 1 |
| `GlyphMapping.AsciiIndex` | main.py:19-20 | the index is the floor of 94 * brightness: k * 255000 <= 94 * sum < (k + 1) * 255000, and it is always below 95, so the ramp lookup is in bounds |
| `GlyphMapping.GlyphFor` | main.py:18-21 | a pixel's character is printable (between `' '` and `'~'`) and has code point 32 + its ramp index |
| `GlyphMapping.IndexMonotone` | main.py:19-20 | a pixel with a luminance sum no greater than another's gets no greater a ramp index, and no greater a character |
| `GlyphMapping.ChannelwiseMonotone` | main.py:19-20 | raising any of r, g, b never lowers the ramp index |
| `GlyphMapping.BlackIsSpace` | main.py:19-21 | black (0,0,0) maps to index 0, a space |
| `GlyphMapping.WhiteIsTilde` | main.py:19-21 | white (255,255,255) maps to index 94, `'~'` |
| `GlyphMapping.PrimaryColours` | main.py:19-21 | pure red, green and blue map to indices 28, 55 and 10: `'<'`, `'W'` and `'*'` |
| `GlyphMapping.IsAsciiArtOf` | main.py:14-22 | defines the grid the loops build: `height` rows of `width` characters, with the glyph of pixel (x, y) at row y, column x |
| `GlyphMapping.ImageToAscii` | main.py:8-24 | returns the image's width and height, and art of exactly `height` rows of `width` characters each; the character at row y, column x is the glyph of pixel (x, y) |
| `GlyphMapping.AsciiArtUnique` | main.py:14-22 | the ASCII art of an image is determined by its pixels: two arts meeting the per-cell contract are equal |
| `GlyphMapping.SameColourSameGlyph` | main.py:18-21 | the character of a cell depends only on the colour of its own pixel, across positions and images |
| `Rasterizer.Canvas.constructor` | main.py:40-41 | a new canvas has the given size and background and no draws yet |
| `Rasterizer.Canvas.Text` | main.py:50 | a text draw is appended after all earlier draws on the canvas |
| `Rasterizer.RowDraws` | main.py:46-51 | one row of the art yields one draw per character |
| `Rasterizer.Layout` | main.py:44-52 | defines all the draws of the loops in closed form: each row's draws, left to right, after those of the rows above; cell x of row y at (x * font_size, y * line_height) with its character and the pixel at (x, y) |
| `Rasterizer.LayoutLength` | main.py:45-50 | the layout holds one draw per character of the art |
| `Rasterizer.LayoutAt` | main.py:44-52 | the draw for row y, column x comes after all draws of the rows above it and x draws of its own row; it shows that cell's character at (x * font_size, y * line_height), filled with the pixel at (x, y) |
| `Rasterizer.PipelineLayoutLength` | main.py:45-50 | the ASCII art of an image always fits the image, and its layout has exactly width * height draws |
| `Rasterizer.PipelineLayout` | main.py:44-52 | in the layout of an image's ASCII art, draw number y * width + x is the glyph of pixel (x, y), at (x * font_size, y * line_height), in that pixel's unchanged colour |
| `Rasterizer.LayoutRowMajor` | main.py:44-52 | with positive cell metrics the draws come in row-major order: each later draw is lower, or on the same line and further right |
| `Rasterizer.LayoutInsideCanvas` | main.py:37-52 | every draw of an image's ASCII art has its cell end at or before the right and bottom edges of the width * font_size by height * line_height canvas; with positive metrics the draw also starts strictly inside the canvas |
| `Rasterizer.SaveAsciiAsImage` | main.py:31-55 | with `font_size` defaulting to 10, the canvas is saved exactly when every character has a pixel behind it; a saved canvas is fresh, black, sized width * font_size by height * line_height, and holds exactly the row-major layout of the art; otherwise the outcome names the first cell whose pixel lookup fails, and every earlier row fitted |

## Left out

- Image loading and RGB conversion (main.py:7) are foreign library calls on files. The model starts from a loaded, rectangular `Image`.
- Writing the canvas to a file (main.py:55), and with it the `output_path` parameter (main.py:31), is foreign I/O. A `Saved` outcome stands for the canvas handed to the writer, and write failures are not modelled.
- Font loading and metrics (main.py:35-36) are external resources. `lineHeight`, which the source reads from the font, is a natural-number parameter placed before `fontSize` (default 10, as at main.py:31), and a font that fails to load is not modelled.
- Glyph rasterisation by `draw.text` (main.py:50) is recorded only as an appended `TextDraw` command, not as pixels.
- GlyphMapping.AsciiIndex: states the exact rational index, not the source's floating-point computation. Float rounding at exact boundaries (pure white, for one) may give a different index.
- The exception handlers and messages (main.py:26-28, 56, 58-59) are console output. The only failure inside the modelled loops, a pixel lookup outside the image, is modelled as `PixelOutOfRange`; the other exceptions come from the left-out I/O.
- GlyphMapping.ImageToAscii: does not return `original_image` alongside the art, because the caller already holds the same `Image` value.
- The `__main__` block (main.py:62-71) is a hard-coded path and a truthiness guard around the two calls, so it is script glue.
- Python integers are unbounded, like Dafny's, so no wrap-around is modelled.
