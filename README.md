# menyoki GIF core, modelled in Dafny

This project models the GIF side of menyoki, a screen recorder:

- `src/gif/mod.rs` holds the streaming GIF encoder, `Gif`, with `new` and `save`:
  - `new` writes the header and the loop policy.
  - `save` writes one frame per captured image. It polls the cancellation keys before each image and stops at the first failed write.
- `src/gif/settings.rs` turns parsed command-line arguments into `GifSettings` and into the `SplitSettings` used to split a GIF into frames.
- `src/anim/settings.rs` builds `AnimSettings` for making an animation from frame files. That covers:
  - the frame rate;
  - the stored repeat count;
  - quality and speed;
  - the cut window in milliseconds;
  - the frame list, in natural order unless `--no-sort` is given;
  - the gifski flags.

  It also holds `map_range` and the split settings.

Modules:

- `Wrappers` holds `Option`, `Result` and `Outcome`.
- `Ints` holds the source's fixed-width integers: `u8`, `u16`, `u32` and `i32`. It covers `i32` wrap-around, `try_into().unwrap_or_default()` and the truncating `as i32`.
- `Args` models the parsed command line (`Matches`, `ArgParser`) and the rule of `ArgParser::parse`: use the typed value when it reads, otherwise the caller's fallback.
- `Paths` models `Path::file_name` and `Path::file_stem` on `/`-separated strings.
- `Natord` is a natural-order comparator with its preorder laws, plus an insertion sort proved sorted and a permutation.
- `GifConfig` models `src/gif/settings.rs`.
- `AnimConfig` models `src/anim/settings.rs`.
- `GifEncoder` models `src/gif/mod.rs`, as the class `Gif`:
  - `Gif.New` creates the encoder.
  - `Gif.Save` runs a loop whose new state is tied to the function `Saved`.

Three behaviours of the outside world are oracles:

- The keyboard poll is `cancel: seq<bool>`: `cancel[i]` is the answer before image `i`.
- The output sink is `Output`, which says which writes fail.
- Shell expansion, directory listing and the default output location are function parameters.

Three behaviours of the encoder are easy to misread, and the model states them as the code has them:

- `save` with no images writes nothing and returns `Ok(())`. The "No frames found to save" stop belongs to the application code in the `app` module that calls `save` (`App::start`, invoked from `src/main.rs:31-39`), which is not part of this model; the encoder itself does not stop. See `SaveOfNoImages`.
- The codec speed is `30 - map_range(q, (1,100), (0,29)) as i32`. The cast truncates toward zero, so the speed runs from 30 at quality 1 down to 1 at quality 100.
- The frame delay is `((1/fps) * 100) as u16`. It truncates rather than rounds, and depends on the frame rate alone.

## Model

| member | source | states |
|---|---|---|
| Ints.WrapI32 | src/gif/settings.rs:54 | `i32` subtraction in a release build: the result is in `i32`, equals the exact value when that fits, and differs from it by a multiple of 2^32 |
| Ints.U16OrZero | src/gif/mod.rs:55-56 | `try_into::<u16>().unwrap_or_default()`: the value when it fits in `u16`, otherwise 0 |
| Ints.TruncReal | src/gif/mod.rs:91-95 | `as i32` on a float truncates toward zero: floor for non-negative values, ceiling for negative ones |
| Args.ReadU8 | src/gif/settings.rs:55 | a `u8` argument reads exactly when its unsigned text reads and the value fits 0..255, and then to that value |
| Args.ReadU8Digits | src/gif/settings.rs:55 | the digits of `n` read as `n` when `n <= 255` and do not read otherwise |
| Args.ReadU32 | src/anim/settings.rs:96 | a `u32` argument reads exactly when its unsigned text reads and the value fits 0..2^32-1, and then to that value |
| Args.ReadU32Digits | src/anim/settings.rs:96 | the digits of `n` read as `n` when `n` fits `u32` and do not read otherwise |
| Args.ReadI32 | src/gif/settings.rs:54 | an `i32` argument reads exactly when its signed text reads and the value fits `i32`, and then to that value |
| Args.ReadI32Digits | src/gif/settings.rs:54 | the signed text of `n` reads as `n` when `n` fits `i32` and does not read otherwise |
| Args.ReadDecimal | src/gif/settings.rs:56 | a float argument: empty text does not read |
| Args.ReadPlainDigits | src/gif/settings.rs:56 | plain digits read as the integer they spell |
| Args.SplitMagnitude | src/anim/settings.rs:102-105 | the digits around the point read exactly when both runs are digits and not both are empty |
| Args.DecimalValueIsFraction | src/anim/settings.rs:102-105 | the value of digits `w`, a point and digits `f` is `w` + `f` / 10^k, with k the number of digits in `f` |
| Args.MagnitudeDigits | src/anim/settings.rs:102-105 | digits `w`, a `.` and digits `f`, not both empty, make that value as an unsigned magnitude |
| Args.NegatedDecimal | src/anim/settings.rs:102-105 | a leading `-` negates a magnitude that reads |
| Args.PointDecimal | src/anim/settings.rs:102-105 | `w.f` reads as the value of `w` and `f` around the point |
| Args.NegatedPointDecimal | src/anim/settings.rs:102-105 | `-w.f` reads as the negation of that value |
| Args.ReadDecimalDigits | src/anim/settings.rs:102-105 | for all digit runs `w` and `f`, not both empty, `w.f` reads as `w` + `f` / 10^k (k the number of digits in `f`, by `DecimalValueIsFraction`) and `-w.f` as its negation |
| Args.ReadShowUnsigned | src/gif/settings.rs:133-145 | reading back the decimal digits of any natural number gives that number (round trip) |
| Args.ReadShowSigned | src/gif/settings.rs:133-145 | a signed reader reads `-` followed by the digits of `n` as `-n`, and plain digits as `n` |
| Args.Parse | src/gif/settings.rs:54-56 | the parsed value when the argument is given and reads as the target type, otherwise the caller's fallback |
| Args.StoredRepeat | src/anim/settings.rs:100 | the stored repeat is the requested count minus one. It falls back to -2 when the request is missing or unreadable and wraps to `i32::MAX` at `i32::MIN`; the result is always an `i32` |
| Paths.TrimTrailing | src/gif/settings.rs:107 | a prefix of the path that ends neither in a separator nor in a `/.` component, and only separators and `/.` components were removed |
| Paths.LastSegment | src/gif/settings.rs:107 | the longest suffix of the path without a separator |
| Paths.FileName | src/gif/settings.rs:107 | the last segment of the trimmed path, present exactly when that segment is not empty, `.` or `..` |
| Paths.FileNameIgnoresTrailing | src/gif/settings.rs:107 | a trailing `/` or `/.` does not change the file name (`foo.txt/.` names `foo.txt`) |
| Paths.FileNameAfterDir | src/gif/settings.rs:107 | for any directory, `dir/name` names `name` when `name` has no separator and is not empty, `.` or `..` |
| Paths.LastSegmentAfterSeparator | src/gif/settings.rs:107 | the last segment of `dir/name` is `name` when `name` has no separator |
| Paths.FileNameOfSegment | src/gif/settings.rs:107 | a name without separators that does not open with `.` is its own file name |
| Paths.FileStem | src/gif/settings.rs:107-110 | present exactly when a file name is. It is the name up to its last `.` when that `.` is not the first character, and otherwise the whole name |
| Paths.StemOfPlainName | src/gif/settings.rs:107-110 | a name with no separator and no dot is its own file name and its own stem |
| Paths.FramesDirName | src/gif/settings.rs:105-111 | the default directory name is the file's stem (or nothing) followed by `_frames` |
| Paths.FramesDirOfPlainName | src/gif/settings.rs:105-111 | the default split directory for a plain file name `x` is `x_frames` |
| Paths.FramesDirOfDottedName | src/gif/settings.rs:105-111 | a file `base.ext` gives `base_frames`: the extension is dropped |
| Natord.NaturalLeq | src/anim/settings.rs:145 | the natural order on names: reflexive, with the empty name first (totality and transitivity below) |
| Natord.NaturalLeqTotal | src/anim/settings.rs:145 | any two frame names are comparable |
| Natord.NaturalLeqTransitive | src/anim/settings.rs:145 | the natural order is transitive |
| Natord.TokensLeqTotal | src/anim/settings.rs:145 | the lexicographic token order is total |
| Natord.TokensLeqTransitive | src/anim/settings.rs:145 | the lexicographic token order is transitive |
| Natord.TokensLeqReflexive | src/anim/settings.rs:145 | the lexicographic token order is reflexive |
| Natord.SortedPairwise | src/anim/settings.rs:144-146 | in a sorted list every name is no greater than every later name |
| Natord.Insert | src/anim/settings.rs:145 | inserting into a sorted list keeps it sorted and adds exactly that name |
| Natord.SortNatural | src/anim/settings.rs:144-146 | the sorted frame list is in natural order and is a permutation of the input |
| Natord.NumberedNamesOrder | src/anim/settings.rs:145 | names that differ only in an embedded number are ordered exactly by that number, in both directions |
| Natord.SortedThree | src/anim/settings.rs:144-146 | three strictly ordered names have only one sorted arrangement |
| Natord.FrameNamesSorted | src/anim/settings.rs:144-146 | `frame2.png`, `frame10.png` and `frame1.png` sort to `frame1.png`, `frame2.png`, `frame10.png` |
| GifConfig.FromArgs | src/gif/settings.rs:51-61 | with no arguments the result is the default settings (-1, 75, 1.0, false). Otherwise: repeat is an `i32`, quality is a `u8`, and `fast` is set exactly when the flag is present |
| GifConfig.StoredRepeatIsRequestedMinusOne | src/gif/settings.rs:54 | a requested repeat `n` is stored as `n - 1`, except at `i32::MIN`, where it wraps to `i32::MAX` |
| GifConfig.MissingRepeatIsMinusTwo | src/gif/settings.rs:54 | a missing or unreadable `--repeat` stores the default -1 minus one, that is -2 |
| GifConfig.QualityAndSpeedPassThrough | src/gif/settings.rs:55-56 | quality and speed are the parsed values when readable, otherwise 75 and 1.0 |
| GifConfig.QualityOutOfRangeFallsBack | src/gif/settings.rs:55 | a quality that overflows `u8` (such as 300) silently falls back to 75 |
| GifConfig.FromArgsExample | src/gif/settings.rs:127-147 | `--repeat 5 --quality 10 --speed 1.1 --fast` gives repeat 4, quality 10, speed 1.1 and fast |
| GifConfig.SpeedText | src/gif/settings.rs:140 | the text `1.1` reads as the decimal 1.1 |
| GifConfig.SplitFromArgs | src/gif/settings.rs:98-119 | with no arguments both paths are empty. Otherwise the file is `--file` or empty, and the dir is `--dir`; without `--dir`, it is the default path of `<stem>_frames` |
| GifConfig.SplitDefaultsToFramesDir | src/gif/settings.rs:101-113 | without `--dir`, splitting the plain file `x` goes to the default location of `x_frames` |
| GifConfig.SplitDropsExtension | src/gif/settings.rs:101-113 | without `--dir`, splitting `clip.gif` goes to the default location of `clip_frames` |
| AnimConfig.Expand | src/anim/settings.rs:125-127 | the shell expansion of the text when it succeeds, otherwise the text itself |
| AnimConfig.FrameSource | src/anim/settings.rs:124-143 | the listing of the expanded `--dir` when given (nothing when it cannot be listed), else the `--frames` values in order, else the empty list |
| AnimConfig.GetFrames | src/anim/settings.rs:123-148 | it fails exactly when the frame source cannot be listed. Otherwise the result is a permutation of the source: with `--no-sort` it equals the source, and otherwise it is naturally sorted |
| AnimConfig.NormalFps | src/anim/settings.rs:96-99 | the fps is the parsed `u32` when it is positive, otherwise 20; it is never zero |
| AnimConfig.FpsFallsBack | src/anim/settings.rs:96-99 | `--fps 0` and a rate that overflows `u32` both fall back to 20 |
| AnimConfig.GifskiFlags | src/anim/settings.rs:108-111 | the flags are `(gifski or fast, fast)`; fast mode always implies gifski |
| AnimConfig.CutWindow | src/anim/settings.rs:103-106 | each end of the cut is the parsed seconds times 1000, or 0 when missing or unreadable |
| AnimConfig.FromParser | src/anim/settings.rs:93-115 | with no arguments the result is the default settings. Otherwise fps, repeat, quality, speed, cut and gifski are each tied to their parse rule, with fps > 0, an `i32` repeat, a `u8` quality, and fast implying gifski. It fails exactly when `--dir` is given and cannot be listed. Otherwise the frames are a permutation of the frame source: that source itself under `--no-sort`, naturally sorted without it |
| AnimConfig.FromParserExample | src/anim/settings.rs:252-290 | the repository's example gives fps 15, repeat 4, quality 10, speed 1.1, cut (900, 800) and both gifski flags |
| AnimConfig.ExampleIntegers | src/anim/settings.rs:284-286 | `--fps 15 --repeat 5 --quality 10` gives fps 15, repeat 4 and quality 10 |
| AnimConfig.ExampleSpeed | src/anim/settings.rs:289 | `--speed 1.1` gives speed 1.1 |
| AnimConfig.ExampleCut | src/anim/settings.rs:290 | `--cut-beginning 0.9 --cut-end 0.8` gives the window (900, 800) ms |
| AnimConfig.DecimalText | src/anim/settings.rs:277-281 | a one-digit decimal `d.f` reads as `d + f/10` |
| AnimConfig.MapRange | src/anim/settings.rs:158-167 | the map is undefined exactly when the source range is a single point |
| AnimConfig.MapRangeEndpoints | src/anim/settings.rs:164-166 | the ends of the source range map to the ends of the target range |
| AnimConfig.MapRangeMonotone | src/anim/settings.rs:164-166 | between increasing ranges the map keeps order and maps the source range into the target range |
| AnimConfig.SplitFromParser | src/anim/settings.rs:215-242 | with no arguments both paths are empty. Otherwise the file is shell-expanded `--file`, and the dir is shell-expanded `--dir`; without `--dir`, it is the default path of `<stem>_frames` |
| AnimConfig.SplitExample | src/anim/settings.rs:300-306 | splitting `x` with no `--dir` gives the file `x` and the dir at the default location of `x_frames` |
| GifEncoder.LoopPolicy | src/gif/mod.rs:59-62 | a stored repeat in 0..65535 gives `Finite(repeat)`. A larger one gives `Finite(0)`, because it overflows `u16`. A negative one gives `Infinite` |
| GifEncoder.Delay | src/gif/mod.rs:97 | the delay is the whole hundredths of a second in one frame period (`d*fps <= 100 < (d+1)*fps`). It always fits in `u16`, and is 65535 at 0 fps |
| GifEncoder.Speed | src/gif/mod.rs:91-95 | the truncated codec speed equals 30 - (q-1)*29/99 in integer division for q >= 1, and 30 for q = 0 |
| GifEncoder.SpeedInCodecRange | src/gif/mod.rs:91-95 | qualities 1..100 give speeds within the codec's 1..30 |
| GifEncoder.SpeedNonIncreasing | src/gif/mod.rs:91-95 | a higher quality never gives a higher speed |
| GifEncoder.SpeedAtEnds | src/gif/mod.rs:91-95 | quality 1 gives 30, quality 100 gives 1, and quality 0 gives 30 |
| GifEncoder.SpeedAboveHundred | src/gif/mod.rs:91-95 | nothing clamps qualities over 100: 101..103 give 1, 104 and above give less than 1, and 255 gives -44 |
| GifEncoder.RequestedRepeatLoopPolicy | src/gif/mod.rs:59-62 | `--repeat` to loop policy: 0 loops forever, and n in 1..65536 gives `Finite(n-1)`. Larger counts give `Finite(0)`. Negative requests loop forever, except `i32::MIN`, which gives `Finite(0)` |
| GifEncoder.LoopsForeverIff | src/gif/mod.rs:59-62 | the GIF loops forever exactly when there are no arguments, when `--repeat` is missing or unreadable, or when the request is in `i32::MIN+1..0` |
| GifEncoder.FirstFire | src/gif/mod.rs:82-86 | the first index at which the oracle answers true, or `n`; no earlier index answers true |
| GifEncoder.EncodeFrame | src/gif/mod.rs:87-97 | the frame carries the image, its size as `u16` (unchanged when it fits) and a delay that fits `u16`; for qualities 1..100 the speed lies in 1..30 |
| GifEncoder.EncodeAll | src/gif/mod.rs:87-97 | one frame per image, in order, each from its own image |
| GifEncoder.SavedIsPrefix | src/gif/mod.rs:82-99 | `save` writes a prefix of the frames, in input order, and frame `j` carries image `j` |
| GifEncoder.SaveStopsAtCancel | src/gif/mod.rs:83-86 | a cancellation before image `k` leaves exactly `k` frames and succeeds |
| GifEncoder.SaveStopsAtWriteError | src/gif/mod.rs:98 | a failed write of frame `k` leaves the `k` earlier frames and fails |
| GifEncoder.SaveWritesEveryImage | src/gif/mod.rs:82-100 | with no cancellation and no write errors every image is written once, in order, and `save` succeeds |
| GifEncoder.SaveOfNoImages | src/gif/mod.rs:82-100 | saving no images writes nothing and succeeds |
| GifEncoder.SaveFailsOnlyOnWriteError | src/gif/mod.rs:98-100 | `save` fails only when some write `k` failed with no cancellation up to it, leaving exactly `k` frames |
| GifEncoder.SavedFramesShareDelayAndSpeed | src/gif/mod.rs:91-97 | every written frame has the delay of the fps and the speed of the quality |
| GifEncoder.Gif.constructor | src/gif/mod.rs:63-67 | the encoder holds the given fps, settings, header and loop policy, with no frames yet |
| GifEncoder.Gif.New | src/gif/mod.rs:47-68 | it fails exactly when the header or the loop-policy write fails. Otherwise the header size is the geometry's `u16` size or 0, and the loop policy is `LoopPolicy(settings.repeat)` |
| GifEncoder.Gif.Save | src/gif/mod.rs:77-101 | after the call the frames written are `Saved(images, cancel, fails)`, and the result is `SaveOutcome`. The lemmas above characterise both |

## Left out

- The live recording side is not part of this model: `src/record/mod.rs`, the capture loop and its frame clock, the worker thread and the window system. The argument definitions in `src/args/mod.rs` and the dispatch in `src/main.rs` are left out too.
- `AnimSettings::from_args` and `SplitSettings::from_args` in `src/anim/settings.rs` only pick the subcommand whose matches `from_parser` receives. The model starts from that `ArgParser`.
- `AnimSettings::new`, `GifSettings::new` and `SplitSettings::new` are the datatype constructors. The `Default` values are the constants `DEFAULT_ANIM`, `DEFAULT_GIF` and `DEFAULT_SPLIT`.
- Floating point is modelled as exact reals:
  - `speed` and the cut window are `f32` in the source, so `1.1` and `900.0` are exact here. The rounding of `0.9 * 1000` in `f32` is not modelled.
  - For the codec speed and the delay, exact reals give the same integers as the source's `f64` and `f32`. Away from an integer, the rounding error is far smaller than the distance to the nearest integer. Where the exact value is an integer (the divisors of 100 for the delay), the float result rounds back to it.
- Args.ReadDecimal: reads only an optional sign and decimal digits around at most one `.`. Rust's float parser also accepts exponents, `inf` and `nan`, which the model does not.
- Pixel handling is left out. That covers the conversion of the image data to RGBA, the colour quantisation and LZW compression inside the `gif` crate, and the pixel contents of a frame. A frame carries its source image instead.
- The `gif` crate asserts that the speed lies in 1..30. A quality of 104 or more, which a `u8` allows, therefore panics in the crate (101 to 103 still give speed 1), and the model records no panic for it; `SpeedAboveHundred` shows where the speed leaves that range.
- The GIF trailer, which the `gif` crate writes when the encoder is dropped, is not modelled. Neither is any write error on it.
- GifEncoder.EncodeFrame: the crate's pixel-buffer length assertion in `Frame::from_rgba_speed` (`width * height * 4` must equal the buffer length) is not modelled. An image side above 65535 is cast to 0, so the crate panics there and writes no frame. The model instead writes a frame with that side 0.
- Natord.NaturalLeq: a simplified natural order. Digit runs compare by value, and other characters compare by code point. The `natord` crate skips whitespace, which the model does not. It also compares digit runs with a leading zero digit by digit, so `01` sorts before `1`; here such runs compare by value, so `01` and `1` tie.
- Natord.SortNatural: the source sorts a `Vec` in place with a stable sort. The model sorts a sequence by insertion. It proves sortedness and permutation but does not state stability: the relative order of names that compare equal is left unspecified.
- Paths.FileName: paths are Unix paths of characters. Windows prefixes and non-UTF-8 names are not modelled.
- GifEncoder.Speed: the encoder calls `util::map_range`, which is not part of this model. The model assumes it computes the same linear map as `AnimSettings::map_range` (src/anim/settings.rs:164-166).
- AnimConfig.GetFrames: the two panics in the source are modelled as one. An unreadable directory stops with "Could not read files from directory". A failing directory entry is left out, and so is the empty string that a non-UTF-8 entry name becomes.
- Ints.WrapI32: `repeat - 1` wraps as in a release build. A debug build would panic at `i32::MIN`.
- The capture geometry's origin plays no part in encoding and is not modelled.
