# butter-video: frame-pair scoring core

butter-video compares two video clips frame by frame with an external full-reference
image metric (butteraugli, ssimulacra, ssimulacra2) and reports the average score and,
when the metric prints a "3-norm" line, the 75th percentile of those norms. This project
models the three pieces of sequential logic in `src/main.rs` that do the work:

- **Aggregator** (`aggregator.dfy`): the `run_metric` loop. Two decoders are pulled in
  lockstep until either is exhausted; each pair is compared, its score added to `sum`, its
  norm (when present) pushed onto `norms`, and `frameno` incremented. A length-mismatch
  warning names the frame index where one stream ran out; no pairs means "No frames read".
  The four bit-depth arms share the same bookkeeping, so the loop is modelled once and the
  arm selection separately (`ReadWidths`). The decoders are finite sequences and the
  per-pair comparison is an uninterpreted function returning a `ScorerOutput.ScoreSample` (a score and an optional norm).
- **ScorerOutput** (`scorer_output.dfy`, on top of `text.dfy`): the stdout tail of
  `compare_frame`. The score token is the first non-empty line, trimmed; the norm token is
  what follows the first `": "` of the first line starting with `"3-norm"`. `f64` parsing is
  an opaque partial function passed in by the caller. `text.dfy` models the `str` methods
  involved: `lines` (split at `'\n'`, dropping one `'\r'` before a `'\n'`), `trim` (Unicode
  White_Space), `starts_with` and `split_once`.
- **YuvRaster** (`yuv_raster.dfy`): `yuv_to_rgb_u8`. For each luma coordinate in row-major
  order one R, G, B triple: mono frames replicate the (shifted) luma sample; other layouts
  read chroma at `(x >> ss_x, y >> ss_y)` and apply the colour library's `to_rgb`, which is
  uninterpreted, with BT.709 above 576 luma rows and BT.601 otherwise. Two-byte samples are
  shifted right by `bit_depth - 8` and cast to `u8` (low 8 bits kept).

The code's 4:2:2 shift pair is `(0, 1)`, which halves the vertical chroma axis, whereas
conventional 4:2:2 sampling (ITU-R BT.601) halves the horizontal one. The model follows the
code (`ChromaShift`, `ChromaShiftHalves`). The code converts to 8-bit output only and checks
no bit depth itself.

`wrappers.dfy` holds `Option` and `Result`; `Err` stands for a panic of the program.

## Model

| member | source | states |
|---|---|---|
| `Text.FindIndex` | src/main.rs:255 | `None` exactly when no element satisfies the predicate; otherwise the first index whose element does |
| `Text.StartsWith` | src/main.rs:262 | a text starts with a prefix exactly when the prefix is no longer than the text and agrees with it character by character |
| `Text.Lines` | src/main.rs:254 | no line holds a `'\n'`; there are no lines exactly when the text is empty |
| `Text.LinesOfUnlines` | src/main.rs:254 | lines without `'\n'` or a final `'\r'`, each followed by `'\n'`, split back into the same lines |
| `Text.LinesOfUnlinesCrlf` | src/main.rs:254 | lines without `'\n'`, each followed by `"\r\n"`, split back into the same lines: the `'\r'` before each `'\n'` is dropped |
| `Text.UnlinesOfLines` | src/main.rs:254 | joining the lines of a text in which no `'\r'` precedes a `'\n'` gives the text, plus a `'\n'` when its last line was unterminated |
| `Text.IsWhitespace` | src/main.rs:257 | space, tab, `'\n'` and `'\r'` are whitespace; digits, signs, the decimal point and ASCII letters never are, so trimming never strips a character of a number, including an exponent, `inf` or `NaN` |
| `Text.Trim` | src/main.rs:257 | the result is the text with only whitespace removed before and after it, and it neither starts nor ends with whitespace |
| `Text.TrimEmpty` | src/main.rs:257 | a text trims to the empty string exactly when it is all whitespace |
| `Text.FindFrom` | src/main.rs:263 | `None` exactly when the pattern occurs nowhere from the start index on; otherwise the first index from there at which it occurs |
| `Text.SplitOnce` | src/main.rs:263 | `None` exactly when the delimiter never occurs; otherwise before + delimiter + after is the text and the delimiter does not occur earlier |
| `Text.SplitOnceAtFirst` | src/main.rs:263 | any decomposition at the first occurrence of the delimiter is the one returned |
| `ScorerOutput.ScoreToken` | src/main.rs:253-257 | `None` exactly when every line is empty; otherwise the trimmed first non-empty line |
| `ScorerOutput.WhitespaceLineGivesEmptyScoreToken` | src/main.rs:255-257 | a whitespace-only first non-empty line is selected and gives the empty token |
| `ScorerOutput.NormToken` | src/main.rs:260-263 | `Ok(None)` exactly when no line starts with `"3-norm"`; for the first such line, an error exactly when it holds no `": "`, naming that line |
| `ScorerOutput.NormTokenIsRightOfFirstDelimiter` | src/main.rs:262-264 | the norm token is the untrimmed text after the first `": "` of the first `"3-norm"` line |
| `ScorerOutput.ParseScorerOutput` | src/main.rs:252-265 | fails with no score line exactly when all lines are empty; the score is the parse of the first non-empty line trimmed, and a non-numeric score is reported before any norm problem; the norm is absent exactly when no `"3-norm"` line exists, and otherwise is the parse of the norm token; once the score parses, a norm line without `": "` fails with that line, a non-numeric norm token fails with that token, and the result is a sample exactly when neither happens |
| `YuvRaster.ShiftedSampleFits` | src/main.rs:285-289 | a two-byte sample below 2^bit_depth shifted by bit_depth − 8 is below 256, so the `u8` cast loses nothing |
| `YuvRaster.Narrow` | src/main.rs:285-289 | a one-byte sample is kept as it is; a two-byte sample below 2^(shift + 8) becomes exactly its value shifted right, the `u8` cast losing nothing |
| `YuvRaster.ColorMatrix` | src/main.rs:275-279 | BT.709 exactly when the luma height exceeds 576, BT.601 otherwise |
| `YuvRaster.ChromaShift` | src/main.rs:280-298 | only 4:2:0 shifts the horizontal chroma coordinate, only 4:4:4 leaves the vertical one unshifted, and no axis is shifted by more than one |
| `YuvRaster.PixelAt` | src/main.rs:281-321 | a mono pixel repeats its luma byte in R, G and B; a colour pixel is `to_rgb` of the chosen matrix and its own luma byte |
| `YuvRaster.RowBytes` | src/main.rs:304-322 | a row of n pixels has 3·n bytes |
| `YuvRaster.RasterRows` | src/main.rs:301-324 | m rows have m·3·width bytes |
| `YuvRaster.YuvToRgbU8` | src/main.rs:268-325 | the raster has width × height × 3 bytes of the luma plane |
| `YuvRaster.PixelLayout` | src/main.rs:301-324 | the pixel (x, y) occupies bytes 3·(y·width + x) to 3·(y·width + x) + 2 |
| `YuvRaster.MonoRasterIsGray` | src/main.rs:281-293 | for `Cs400` R = G = B; the luma sample itself for one-byte samples; shifted right by bit_depth − 8, and below 256, for two-byte samples below 2^bit_depth |
| `YuvRaster.ColourPixel` | src/main.rs:275-321 | a non-mono pixel is `to_rgb` of its own luma sample and the chroma at (x >> ss_x, y >> ss_y), with BT.709 iff luma height > 576 |
| `YuvRaster.SharedChromaCell` | src/main.rs:304-321 | two luma coordinates with equal luma samples in the same chroma cell get the same colour |
| `YuvRaster.ChromaShiftHalves` | src/main.rs:295-297 | 4:2:0 reads chroma at (x/2, y/2), 4:2:2 as written at (x, y/2), 4:4:4 at (x, y) |
| `YuvRaster.UniformFrameGivesUniformRaster` | src/main.rs:301-324 | planes of one sample value each give a raster of width × height copies of one colour |
| `Aggregator.ReadWidths` | src/main.rs:90-187 | the four arms read each stream with one-byte samples exactly when its own bit depth is 8 |
| `Aggregator.ReadWidthsNarrowExact` | src/main.rs:90-187 | for bit depths 8, 10, 12 and 16, the sample width each arm reads a stream with makes the conversion give every sample below 2^bit_depth as exactly `s >> (bit_depth - 8)` (src/main.rs:286, 288) |
| `Aggregator.Pull` | src/main.rs:92-93 | a stream yields its frame at the current position, and nothing exactly once it is exhausted |
| `Aggregator.PairSamples` | src/main.rs:103-109 | the i-th sample is the comparison of the i-th frames of both streams |
| `Aggregator.TotalScore` | src/main.rs:110 | no pairs sum to zero, and non-negative scores give a non-negative sum |
| `Aggregator.PresentNorms` | src/main.rs:111-113 | at most one norm per pair is collected, and one for every pair exactly when every pair had one |
| `Aggregator.TotalScoreAppend` | src/main.rs:110 | summing scores is additive over consecutive runs of pairs |
| `Aggregator.UniformScoreTotal` | src/main.rs:196 | when every pair scores the same, the sum is that score times the pair count, so the average is that score |
| `Aggregator.PresentNormsAppend` | src/main.rs:111-113 | collecting norms over consecutive runs of pairs concatenates the collections, keeping frame order |
| `Aggregator.PresentNormsOfOne` | src/main.rs:111-113 | a present norm is collected, an absent one skipped |
| `Aggregator.PresentNormAt` | src/main.rs:111-113 | the present norm of pair i is collected right after the norms of all earlier pairs |
| `Aggregator.PresentNormsEmpty` | src/main.rs:198 | no norm is collected exactly when every pair lacked one |
| `Aggregator.PresentNormsFromSamples` | src/main.rs:111-113 | every collected norm is the norm of some compared pair |
| `Aggregator.Summarize` | src/main.rs:191-204 | "No frames read" exactly when no pair was compared; otherwise the average is the sum over the pair count, and the norms go to the percentile estimator exactly when there are any |
| `Aggregator.RunMetric` | src/main.rs:77-205 | exactly min(n1, n2) pairs; a warning iff n1 ≠ n2, naming index min(n1, n2); `sum` and `norms` are the scores' total and the present norms in frame order; "No frames read" iff no pair; otherwise average = sum / frameno and a percentile input iff some norm was collected |

## Left out

- Command-line parsing and the tool-path environment variables (src/main.rs:24-75): configuration only.
- The decoder (src/main.rs:78-81 and every `read_video_frame`): a foreign component; each stream is a finite sequence of frames and its descriptor. The width/height `assert_eq!` (src/main.rs:82-83) is a precondition of `RunMetric`.
- Temporary PNG files, image encoding and saving, launching the scorer and removing the files (src/main.rs:214-250): filesystem and process I/O. `compare_frame` as a whole is the `compare` parameter of `RunMetric`; its parsing tail is `ParseScorerOutput`.
- `String::from_utf8_lossy` (src/main.rs:252): the scorer output is taken as a string.
- `f64` parsing is the opaque `parseF64` parameter, and scores, sums and the average are `real`, so floating-point rounding is not modelled.
- The `Quantile` 75th-percentile estimator (src/main.rs:199-203): a foreign streaming approximation; only the values fed to it are modelled.
- `RGBConvert` and its limited-range coefficients (src/main.rs:300, 320): a foreign library, modelled as the uninterpreted `toRgb`; `RGBConvert::new` is taken to succeed for both matrices.
- Printing (`eprintln!`, `println!`): the warning is returned as the frame index it names, the results as a `Summary`.
- Bit depths below 8 (where `bit_depth - 8` underflows) and, for two-byte samples, bit depths of 24 and more (where the `u16` shift overflows) are excluded by precondition.
- Planes are logical grids without stride or padding, and every chroma read must lie inside the chroma plane (`ChromaCovers`). With the as-written 4:2:2 shift on a genuinely half-width 4:2:2 chroma plane, the program reads past the plane's logical width, landing in padding or in later rows depending on the stride. The model does not describe those reads, so for 4:2:2 it covers only chroma planes as wide as the luma plane.
- RunMetric: the pair counter `frameno` is a Rust `i32` (it has no annotation, so it takes the default integer type), which overflows after 2^31 pairs (a panic in debug builds, a wrap-around in release builds); the model's counter is unbounded, because no real clip comes near that many frames, so `frameno == min(n1, n2)` and the warning index hold without that bound.
- RunMetric: `compare` is total, so a panic inside `compare_frame` (a failed parse, a failed launch) is not threaded through the loop; the parse failures themselves are the errors of `ParseScorerOutput`.
- `Text.Lines` follows the current standard library, where a final line without `'\n'` keeps a trailing `'\r'`.
