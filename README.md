# Terminal video player: frame extraction and brightness reduction

This project models the two pieces of logic in the terminal video player's `main.py`
and proves properties of them.

- **Frame extraction** (`video_to_frames`). The loop reads the video capture frame by
  frame and saves each decoded frame as `frame_NNNN.jpg`. The number is the frame
  counter, zero-padded to four digits. It stops at the first read that fails. The
  capture's advisory frame count is only printed.
- **Brightness reduction** (`convert_to_array`). An image already converted to RGB
  becomes a row-major grid: one row per image row, one entry per pixel. Each entry is
  `round((r + b + g) / 3)`.

Modules:

- `DecimalText` (`decimal_text.dfy`) models Python's `f"{n:04d}"` for a non-negative
  `n` (`Format04d`). It also models Python's `<` on strings (`LexLess`). Its lemmas
  show that, for digit strings of equal length, string order is numeric order.
- `FrameFiles` (`frame_files.dfy`) holds the file name `FrameName`, its inverse
  `FrameNumber` and the extraction loop `VideoToFrames`. The capture is a sequence of
  read results, `Decoded(frame)` or `Failed`. Once the sequence is used up, every
  further read fails, as `cap.read()` does at the end of a video. The loop returns the
  files it wrote, in order, as (base name, frame) pairs, and the final counter.
- `Greyscale` (`greyscale.dfy`) holds the pixel type, the image with PIL's
  `getpixel((x, y))` as `GetPixel`, Python's rounding as `RoundHalfEven`, the per-pixel
  brightness `Grey` and the nested pixel loop `ConvertToArray`.

Numbers. Python computes `(r + b + g) / 3` as a float and `round(average, 0)`, which
returns a float such as `60.0`. The model computes the quotient exactly as a `real`. It
rounds it with Python 3's rule: nearest integer, ties to even. It keeps the result as an
`int` of the same value. The float and exact quotients cannot round differently. The
sum is at most 765, so the exact quotient is a whole number or lies a third away from
one. Float error is far smaller than the sixth that separates such a value from a
halfway point. `RoundedThirdIsQuotient` proves that rounding a third of a whole number
`s` never meets a tie and gives `(s + 1) / 3`.

## Model

| member | source | states |
|---|---|---|
| `DecimalText.Format04d` | main.py:30 | `{n:04d}` is a digit string whose value is `n`. It is four characters long when `n` has at most four digits, and otherwise exactly the canonical numeral, with no leading zero. |
| `DecimalText.Format04dCanonical` | main.py:30 | Every digit string of at least four characters with no extra leading zero is what `04d` writes for its own value. So the format has exactly one spelling per number. |
| `FrameFiles.FrameName` | main.py:30 | The base name is `frame_`, then `Format04d(frameNo)`, then `.jpg`. The round trip, injectivity, length and order facts are in the rows below. |
| `FrameFiles.FrameNumberOfFrameName` | main.py:30 | Round trip: the number read back from `frame_{n:04d}.jpg` is `n`. |
| `FrameFiles.FrameNameOfFrameNumber` | main.py:30 | Round trip the other way: every name the parser accepts is the name written for the number it yields. |
| `FrameFiles.FrameNameInjective` | main.py:30 | Different frame numbers get different file names. |
| `FrameFiles.FrameNameLength` | main.py:30 | A name is 14 characters long exactly when the frame number is below 10000. |
| `FrameFiles.FrameNameOrder` | main.py:30 | For frame numbers below 10000, string order of the names equals numeric order of the numbers, in both directions. |
| `FrameFiles.FrameNameOrderBreaksAt10000` | main.py:30 | From 10000 on, string order and numeric order part: `frame_10000.jpg` sorts before `frame_9999.jpg`. |
| `FrameFiles.DecodedPrefix` | main.py:21-27 | The frames delivered before the first failed read, in read order. Each is the frame of the read at its index. The read right after them fails. |
| `FrameFiles.DecodedPrefixLength` | main.py:21-27 | Any run of `k` successful reads followed by a failed read is exactly the decoded prefix. |
| `FrameFiles.ExtractedFiles` | main.py:21-39 | When reading stops after `k` decoded frames, the `k` files written are exactly the decoded prefix, the i-th named `FrameName(i)`, under distinct names. |
| `FrameFiles.VideoToFrames` | main.py:16-39 | Writes exactly one file per decoded frame, the i-th named `FrameName(i)` and holding the i-th decoded frame. The numbering is 0..N-1 in read order with no gaps. No two files share a name. The final counter is N. The result does not depend on the advisory `frameCount`. |
| `Greyscale.RoundHalfEven` | main.py:65 | `round(x, 0)` is within one half of `x`. On a tie it is even. |
| `Greyscale.RoundedThirdIsQuotient` | main.py:64-65 | A third of a whole `s >= 0` is never halfway between two integers, so the tie rule never applies. `round(s / 3)` equals the integer quotient `(s + 1) div 3`. |
| `Greyscale.Grey` | main.py:62-65 | A pixel's brightness is the nearest whole number to the mean of its channels: three times it is within 1 of `r + g + b`. In closed form it is `(r + g + b + 1) div 3`. It lies in 0..255. |
| `Greyscale.GreyOfGreyPixel` | main.py:64-65 | A grey pixel `(v, v, v)` has brightness `v`. |
| `Greyscale.GreyIgnoresChannelOrder` | main.py:64 | Each of the five non-trivial reorderings of a pixel's channels gives the same brightness. |
| `Greyscale.ConvertToArray` | main.py:45-73 | The grid has `height` rows of `width` entries. Each entry is in 0..255. Row `y`, column `x` is the brightness of the pixel at `getpixel((x, y))`, so the grid is row-major. |

## Left out

- Opening the capture, `cap.read`, `cap.release`, `cv2.imwrite` and JPEG encoding (main.py:9, 23, 33, 42) are foreign I/O and codec calls. The capture is a sequence of read results. The written files are a returned list of (name, frame) pairs.
- Creating the output folder and `os.path.join` (main.py:12-13, 30) are filesystem plumbing. Only the base name of each file is modelled.
- Reading `CAP_PROP_FRAME_COUNT` (main.py:16) is external. It becomes the unused parameter `frameCount`.
- `Image.open`, `convert("RGB")` and `getpixel` (main.py:47, 50, 62) are library internals. The input is the already converted image, with channels typed 0..255.
- Progress printing and the `__main__` block (main.py:36, 44, 80-89) are console output.
- `Greyscale.ConvertToArray`: entries are `int`, while the source stores floats such as `60.0`. The values are equal, as explained above. IEEE float arithmetic is not modelled.
- The sign handling of `04d` is not modelled, because frame numbers are never negative.
- Glyph quantisation, frame resizing and terminal playback are not in `main.py`, so they are not part of this model.
