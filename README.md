# bmputil width detection, modelled in Dafny

bmputil reads a raw pixel dump that has no header and guesses its row width. This project models the part that does the work:

- **Pixel unpacking.** `convert15_to_rgb` and `convert16_to_rgb` turn 2-byte packed pixels (5-5-5 or 5-6-5) into RGB8 triples, with an optional byte swap. 24 bpp input is passed through unchanged. `main` dispatches on the bit depth.
- **Autocorrelation.** For every lag `L` below `corr_size = min(3*max_width+2, rgb_size/3)`, `detect_width` sums over all pixel pairs `L` apart the dot product of their colours centred on 128.
- **Sliding-window peak detection.** A ring buffer of `2*min_width-1` running maxima decides which lags are peaks. An index `i` is checked `h + 1` iterations after it is computed, where `h = min_width-1`. A trailing loop checks the last half-window.
- **Ranked peaks.** `add_peak` keeps the peaks in a linked list, sorted by value descending, with ties in arrival order.
- **Width estimation.** A walk over the ranked peaks averages the lag gaps of the first few consistent peaks, rounded half up.
- **Path derivation.** `main` derives the default output path and the debug CSV path. The output path is the input path with `.png` in place of the extension of its last component, or with `.png` appended when that component has no extension.

## Modules

| file | module | models |
|---|---|---|
| `wrappers.dfy` | `Wrappers` | `Option` |
| `pixels.dfy` | `Pixels` | the two converters and the bit-depth dispatch, as methods writing a fresh `array<bv8>`, proved equal to `Unpack` |
| `autocorr.dfy` | `Autocorr` | `Corr` and the per-lag accumulation loop `CorrelateLag` |
| `peaks.dfy` | `Peaks` | `Insert`, which specifies `add_peak`, and the method `AddPeak`; the peak test `IsPeak` via `WindowMax`; `RankedPeaks`, the list after checking a prefix of lags |
| `estimate.dfy` | `Estimation` | the peak walk `Walk` and `Estimate`, and the loop `EstimateWidth` |
| `detect.dfy` | `Detect` | `detect_width` itself: the fused main loop over `array<int>` buffers, with the ring buffer proved exact (`WindowState`), the trailing loop, and the `size_t` wrap-around of its bounds |
| `paths.dfy` | `Paths` | the `strrchr` scans, `DefaultOutputPath` (proved equal to `Stem(input) + ".png"`), and `DebugPath` |

Conventions:
- Bytes are `bv8`.
- Packed words are `bv16`, so the truncation of the swap back into `uint16_t` is exact.
- Correlations are `int`. The source keeps them in `double`, but every term is an integer product of values in [-128, 127], so the sums are exact integers.

## Model

| member | source | states |
|---|---|---|
| `Pixels.Swap16` | bmputil.c:182-183 | the swap on a 16-bit value moves the high byte to the low byte and the low byte to the high byte |
| `Pixels.SwapInvolution` | bmputil.c:182-183 | swapping twice restores the value |
| `Pixels.Word15` | bmputil.c:180-183 | 15 bpp: the first byte is the high byte; with the little-endian flag, the second byte is |
| `Pixels.Word16` | bmputil.c:197-200 | 16 bpp: the second byte is the high byte; with the flag, the first byte is |
| `Pixels.Word15LittleEndian` | bmputil.c:180-183 | setting the flag equals decoding the swapped byte pair without it |
| `Pixels.Word16LittleEndian` | bmputil.c:197-200 | setting the flag equals decoding the swapped byte pair without it |
| `Pixels.WordByteOrder` | bmputil.c:198 | the 16 bpp path reads a pair in the opposite byte order from the 15 bpp path |
| `Pixels.Decode15` | bmputil.c:185-187 | every channel of a 5-5-5 pixel has its low 3 bits zero |
| `Pixels.Decode15IgnoresTopBit` | bmputil.c:185-187 | bit 15 does not affect the decoded colour |
| `Pixels.Decode16` | bmputil.c:202-204 | red and blue have their low 3 bits zero, green its low 2 |
| `Pixels.Rgb555RoundTrip` | bmputil.c:185-187 | decode after encode keeps the top 5 bits of each channel; encode after decode gives the value without bit 15 |
| `Pixels.Rgb565RoundTrip` | bmputil.c:202-204 | decode after encode keeps the top 5/6/5 bits; encode after decode is the identity |
| `Pixels.UnpackAt` | bmputil.c:179-188 | output byte 3p+c is channel c of the pixel decoded from input bytes 2p and 2p+1 |
| `Pixels.UnpackLittleEndian` | bmputil.c:181-183 | unpacking with the flag set equals unpacking the pair-swapped buffer without it, for both packings |
| `Pixels.ConvertLoopIterations` | bmputil.c:179 | as written, the loop runs ceil(in_size/2) times |
| `Pixels.OddSizeOverrun` | bmputil.c:176-179 | as written, an odd input size makes the loop write 3 bytes past the in_size/2*3 output buffer and read 1 byte past the input |
| `Pixels.Convert15ToRgb` | bmputil.c:174-189 | the output buffer has in_size/2*3 bytes and holds the 5-5-5 decoding of every whole byte pair, in order |
| `Pixels.Convert16ToRgb` | bmputil.c:191-206 | the output buffer has in_size/2*3 bytes and holds the 5-6-5 decoding of every whole byte pair, in order |
| `Pixels.UnpackPixels` | bmputil.c:414-424 | 24 bpp passes the bytes after the offset through unchanged; 16 and 15 bpp go through their converters; any other depth is an error |
| `Autocorr.CorrSize` | bmputil.c:210 | corr_size is at most rgb_size/3 and at most 3*max_width+2, and equals one of them |
| `Autocorr.Centred` | bmputil.c:225-226 | a centred channel lies in [-128, 127] |
| `Autocorr.CorrPrefixAt` | bmputil.c:219-228 | entry L of the series prefix is the correlation at lag L |
| `Autocorr.CorrSeries` | bmputil.c:210-211 | the series has exactly corr_size entries |
| `Autocorr.CorrSeriesAt` | bmputil.c:219-228 | every entry L of the series is the sum, over pixels p < n-L, of the centred dot product of pixels p and p+L |
| `Autocorr.InnerLoopIterations` | bmputil.c:221-223 | as written, the inner loop takes q from 3*offset in steps of 3 while q < rgb_size, which is ceil((rgb_size - 3*offset)/3) iterations |
| `Autocorr.UnalignedOverread` | bmputil.c:221-226 | as written, when rgb_size is not a multiple of 3 the last iteration starts at a q below rgb_size and reads byte q+2 past the end, and also q+1 exactly when rgb_size % 3 == 1 |
| `Autocorr.AlignedInBounds` | bmputil.c:221-226 | on a buffer of whole pixels, the loop as written ends exactly at the buffer's end |
| `Autocorr.CorrelateLag` | bmputil.c:219-228 | the inner loop accumulates exactly corr[offset] |
| `Autocorr.CorrZeroNonNegative` | bmputil.c:219-228 | corr[0] is a sum of squares, so it is never negative |
| `Autocorr.ProductBound` | bmputil.c:225-227 | a product of two centred channels lies in [-16384, 16384] |
| `Autocorr.CorrSumBound` | bmputil.c:221-228 | a sum over m pixel pairs lies within ±49152·m |
| `Autocorr.GreyCorrSumZero` | bmputil.c:221-228 | on a uniform mid-grey buffer every correlation sum is 0 |
| `Peaks.Insert` | bmputil.c:167-171 | inserting a peak grows the list by exactly one |
| `Peaks.InsertPos` | bmputil.c:167-168 | the insertion point comes after every leading entry with value ≥ the new one, and before the first smaller entry |
| `Peaks.InsertAt` | bmputil.c:167-171 | the new peak is spliced in at that point, and the old entries keep their order on either side |
| `Peaks.InsertElems` | bmputil.c:167-171 | element by element: entries before the insertion point stay, the new peak follows, later entries shift by one |
| `Peaks.InsertMembers` | bmputil.c:161-172 | after insertion the list holds exactly the old peaks and the new one |
| `Peaks.InsertMultiset` | bmputil.c:161-172 | insertion is a permutation of the old list plus the new peak |
| `Peaks.InsertSorted` | bmputil.c:167-171 | insertion keeps the list sorted by value, descending |
| `Peaks.InsertRanked` | bmputil.c:167-171 | a peak with a lag larger than any present goes after every equal value, so ties stay in lag order |
| `Peaks.AddPeak` | bmputil.c:161-172 | add_peak's walk and splice give `Insert` of the new peak |
| `Peaks.MaxOf0` | bmputil.c:245 | a slot that starts at 0 and takes running maxima never goes below 0 |
| `Peaks.MaxOf0Bounds` | bmputil.c:245 | that maximum bounds every value folded in, and is either 0 or one of them |
| `Peaks.IsPeakIff` | bmputil.c:233 | a lag is a peak exactly when its value is ≥ 0 and no lag within h of it (clipped to the series) exceeds it |
| `Peaks.RankedPeaksMembers` | bmputil.c:230-256 | the list holds exactly the checked lags that are peaks, each with its own value |
| `Peaks.RankedPeaksRanked` | bmputil.c:230-256 | the list is sorted by value descending, and equal values keep increasing lag order |
| `Peaks.RankedPeaksProperties` | bmputil.c:230-256 | the list is sorted, has no repeated lag and no negative value, and holds only checked lags |
| `Estimation.Follow` | bmputil.c:268-281 | the walk after the first peak takes at most its budget of peaks and no more than are left |
| `Estimation.FollowIs` | bmputil.c:266-281 | the walk takes the longest non-decreasing run within its budget |
| `Estimation.WalkIs` | bmputil.c:259-282 | the accepted lags are the longest prefix of at most 4 peaks with non-decreasing lags |
| `Estimation.WalkShape` | bmputil.c:259-282 | the walk accepts at most 4 peaks, non-decreasing, and stops early only at a lag below its predecessor |
| `Estimation.WalkIncreasing` | bmputil.c:268-272 | with distinct lags, the accepted lags strictly increase |
| `Estimation.GapSumTelescopes` | bmputil.c:272 | the summed gaps equal the last accepted lag minus the first |
| `Estimation.RoundHalfUp` | bmputil.c:317 | `(size_t)(sum/n + 0.5)` is the integer r with r ≤ sum/n + 1/2 < r + 1 |
| `Estimation.EstimateNoneIff` | bmputil.c:317 | there is no estimate (division by zero) exactly when fewer than two peaks exist or the second lies below the first |
| `Estimation.EstimateBounds` | bmputil.c:317 | with distinct lags, an estimate is between 1 and the last accepted lag |
| `Estimation.EstimateIsMeanGap` | bmputil.c:259-282 | an estimate exists exactly when a gap was taken, and is the gap sum over the gap count, rounded half up |
| `Estimation.EstimateWidth` | bmputil.c:259-282 | the loop over last, range_sum and num_ranges yields `Estimate` |
| `Detect.Slot` | bmputil.c:233 | a lag's slot lies in the ring buffer |
| `Detect.SlotDistinct` | bmputil.c:245 | lags less than one window apart never share a slot |
| `Detect.SlotShift` | bmputil.c:238 | lags exactly one window apart share a slot |
| `Detect.SlotStep` | bmputil.c:230-246 | one iteration takes one slot from its running maximum at offset o to the one at o+1 |
| `Detect.WindowStep` | bmputil.c:230-246 | one iteration keeps every slot equal to the running maximum of the one lag within h of the current offset that maps to it, with nothing leaking from a lag one window away |
| `Detect.SlideWindow` | bmputil.c:241-246 | the update loop folds the new value into the slots of lags lo..hi and leaves the rest alone |
| `Detect.PeakCheck` | bmputil.c:233 | when a lag is checked, its slot holds its window maximum, so the equality test is the peak test |
| `Detect.RankedPeaksStep` | bmputil.c:233-236 | a checked lag extends the list exactly when it is a peak |
| `Detect.CheckedLags` | bmputil.c:230-256 | the lags checked are a prefix of the series that never reaches its last lag (corr_size-1), and is empty for an empty series |
| `Detect.DrainBounds` | bmputil.c:250 | in size_t the trailing loop starts at corr_size-h-1 and stops at corr_size-1; for 1 ≤ corr_size < h+1 its start wraps past its end and it runs zero times |
| `Detect.EmptySeriesDrainOverread` | bmputil.c:250-252 | as written, with corr_size = 0 and h ≥ 1 the trailing loop runs, from index 2^64-h-1, over a buffer with no entries |
| `Detect.TestLag` | bmputil.c:252-255 | a lag joins the list exactly when its slot equals its correlation |
| `Detect.SettleLag` | bmputil.c:230-239 | the main-loop check adds lag offset-h-1 exactly when it is a peak, and resets its slot to 0 |
| `Detect.WindowStateInitial` | bmputil.c:213-214 | the zero-filled ring buffer is the correct state before the first lag |
| `Detect.SweepStep` | bmputil.c:219-247 | one main-loop iteration stores corr[offset], checks lag offset-h-1 if there is one, and keeps the ring buffer exact |
| `Detect.SweepLags` | bmputil.c:219-247 | the main loop fills corr_buff with the series and checks lags 0 .. corr_size-h-2 |
| `Detect.DrainLag` | bmputil.c:252-255 | one trailing-loop iteration adds lag i exactly when it is a peak |
| `Detect.DrainLags` | bmputil.c:250-256 | when corr_size ≥ h+1, the trailing loop checks the remaining lags up to corr_size-2 |
| `Detect.SweepTail` | bmputil.c:249-256 | after the trailing loop, exactly the lags counted by `CheckedLags` have been checked |
| `Detect.DetectWidth` | bmputil.c:208-318 | detect_width computes the correlation series and returns the estimate of the ranked peaks among the checked lags |
| `Detect.GreySeriesZero` | bmputil.c:219-228 | a uniform mid-grey buffer has zero correlation at every lag |
| `Detect.ZeroRankedPeaks` | bmputil.c:230-256 | on an all-zero series every checked lag is a peak, ranked in lag order |
| `Detect.RoundHalfUpSelf` | bmputil.c:317 | n gaps summing to n round to 1 |
| `Detect.ZeroPeaksEstimate` | bmputil.c:259-282 | consecutive lags of equal value give the estimate 1 |
| `Detect.ZeroSeriesWidthOne` | bmputil.c:230-317 | an all-zero series with at least two checked lags is estimated as width 1 |
| `Detect.GreyWidthOne` | bmputil.c:208-318 | a uniform mid-grey buffer with at least two checked lags is reported as width 1 |
| `Paths.LastIndexOf` | bmputil.c:380-381 | strrchr from a position on: the returned position holds the character and none after it does; no position is returned only when none from there on holds it |
| `Paths.StemFrom` | bmputil.c:380-383 | scanning back, the path is cut just before the first '.' met, with neither '.' nor '/' after it; otherwise it is kept whole, and then every '.' in it has a '/' after it |
| `Paths.StemFromDot` | bmputil.c:381-383 | a '.' with no '.' and no '/' after it is the cut point |
| `Paths.StemFromWhole` | bmputil.c:380-383 | a path with no '.' after its last '/' is kept whole |
| `Paths.StemCases` | bmputil.c:380-383 | the stem is either the whole path with no extension in its last component, or the prefix before the last '.' of that component |
| `Paths.DefaultOutputPath` | bmputil.c:378-385 | the default output path is the stem followed by ".png", and it fits the strlen(input)+5 bytes allocated |
| `Paths.DebugPath` | bmputil.c:426-428 | the debug path is a prefix of the output path followed by "-autocorr.csv": the whole of it when that fits in 4095 characters, otherwise exactly its first 4095 |
| `Paths.DebugPathNamesOutput` | bmputil.c:428 | a debug path that fits starts with the output path and ends with "-autocorr.csv" |

## Left out

- Argument parsing (`parse_opt`, the option table, the global `arguments`): the model takes `min_width`, `max_width`, `bpp`, `offset` and the endianness flag as parameters.
- `print`/`print_verbose` and their calls: logging only.
- `write_image`: it calls ImageMagick, whose code is not part of this model.
- Reading the input file, and writing the debug CSV with `%f` formatting: I/O.
- IEEE `double` semantics: the correlations are exact integers. The final `range_sum / num_ranges + 0.5` is modelled as integer rounding half up, which agrees with it because num_ranges is 1, 2 or 3.
- Allocation and freeing, including unchecked allocation failure and freeing the peak list.
- `add_peak`'s linked list and `t_peak**` cursor: the list is modelled as a `seq<Peak>`, and `AddPeak` finds the splice point with a loop. Node identity and aliasing are not modelled.
- `Detect.DetectWidth` requires `min_width >= 1`: with 0, `min_width * 2 - 1` wraps around in size_t and the window allocation is meaningless.
- `Pixels.UnpackPixels` requires the offset to be at most the input size. The source does not check this, and `in_size - offset` wraps around.
- 32-bit `int` for `window_idx`, the update loop index and the walk's `last` (bmputil.c:260, 276), which hold lags. Every lag is below corr_size = min(3*max_width+2, rgb_size/3), so they fit an `int` when max_width is at most 715827881 or the RGB data is under 3·2^31 bytes. The model takes lags as unbounded and does not model a lag truncated into `int`.
- `Detect.DetectWidth` returns `None` where the source divides by zero (fewer than two accepted peaks). The source then converts NaN to `size_t`, which is undefined: `range_sum` starts at 0 (bmputil.c:261) and grows only together with `num_ranges` (bmputil.c:272-273), so the division is 0.0/0.
- `Paths.DebugPath` counts the 4096-byte limit of `debug_file` in characters, one per byte: a path with multi-byte characters is cut by the source at 4095 bytes, which the model does not capture.

## Notes

- With the endianness flag clear, the 16 bpp path takes the second byte of a pair as the high byte, and the 15 bpp path the first. The `--big-endian` and `--little-endian` option texts (bmputil.c:25-26) describe both depths as big-endian by default. The model follows the code (`Pixels.Word16`, `Pixels.WordByteOrder`).
- A uniform mid-grey buffer is not reported as lacking signal. Every correlation is 0, so every checked lag is a peak. When corr_size ≥ 3 and corr_size ≥ min_width, at least two lags are checked and the width is 1 (`Detect.GreyWidthOne`). Otherwise fewer than two lags are checked, at most one peak exists, and there is no estimate (a division by zero in the source). The exception is corr_size 0 (fewer than 3 RGB bytes) with min_width ≥ 2, and the default min_width is 16. There the source's trailing loop reads `corr_buff` out of bounds before any division, as the third "## Findings" row records. The corrected model checks no lag there and gives no estimate.
- The peak walk stops only at a lag strictly below the previous one, so an equal lag would be accepted with a gap of 0. Detected peaks never repeat a lag (`Peaks.RankedPeaksProperties`).

## Findings

| source | as written | input that shows it | evidently intended | confidence | as-written member | corrected member |
|---|---|---|---|---|---|---|
| bmputil.c:176-179 | the converters loop while `p - in_buff < in_size`, which is ceil(in_size/2) times, but allocate in_size/2*3 output bytes | 15 or 16 bpp with an odd remaining size, e.g. 3 bytes: two iterations write 6 bytes into a 3-byte buffer and read byte 3 of a 3-byte input | convert whole byte pairs only and drop the trailing byte | not executed | `Pixels.OddSizeOverrun` | `Pixels.Convert15ToRgb` |
| bmputil.c:221-226 | the correlation loop runs while `q - rgb_buff < rgb_size` and reads `q[1]` and `q[2]`; on the 24 bpp path rgb_size is any `in_size - offset` | 24 bpp with 4 bytes: corr_size 1, offset 0, q = 3 reads bytes 4 and 5 of a 4-byte buffer | sum over whole pixels only | not executed | `Autocorr.UnalignedOverread` | `Autocorr.CorrelateLag` |
| bmputil.c:250-252 | the trailing loop's bounds `corr_size - window_size/2 - 1` and `corr_size - 1` are size_t and both wrap when corr_size is 0 | fewer than 3 input bytes of RGB (corr_size 0) with min_width 2 (h = 1): i runs from 2^64-2 while below 2^64-1 and reads corr_buff[2^64-2], which has no entries | check no lag when the series is shorter than h+1 | not executed | `Detect.EmptySeriesDrainOverread` | `Detect.SweepTail` |

The corrected members are what the rest of the model uses:
- `Pixels.Convert16ToRgb` is corrected the same way as `Pixels.Convert15ToRgb`.
- `Autocorr.CorrelateLag` loops while a whole pixel remains at `q`. `Detect.DetectWidth` then accepts a buffer of any size.
- `Detect.SweepTail` checks no lag when corr_size < h+1. `Detect.DetectWidth` then accepts an empty series with any `min_width`.
