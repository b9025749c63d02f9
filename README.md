# Singular: microphone level meter and helper utilities, in Dafny

This project models the two pieces of real logic in Singular, a desktop
application that shows webcams and microphones:

- **The microphone peak-level meter** (`AudioInputSurface`,
  `audio_input.dfy`). When the surface is built, `set_amplitude` picks the
  peak amplitude, the largest magnitude the PCM encoding can hold. Each
  captured buffer then reaches `writeData`, which walks the whole frames of
  interleaved samples. It decodes every sample by depth, signedness and byte
  order, and keeps one running maximum over all channels. It clamps that
  maximum to the peak and emits `microphone_data(id, level)` once, with the
  level as an integer percentage 0..100. The surface is a class. The peak is
  a 16-bit field that `SetAmplitude` assigns. The emitted signals are a ghost
  log. `WriteData` hands the array's contents to `ScanFrames`, which runs
  the source's nested loops with a byte pointer. Its contract ties the new
  log to `BufferLevel`, a specification built from `Samples`, `SeqMax` and
  `Level`.
- **The helper utilities** (`Helper`, `helper.dfy`).
  - The recursive JSON key harvester (`parse_json_object` /
    `parse_json_array`) is modelled as two mutually recursive methods. Their
    loops update the listings hash, a `map`. They are proved equal to the
    function `Harvest`. `Harvest` is in turn proved equal to inserting the
    tree's scalar members in visiting order (`Visits`, `InsertAll`).
  - `substring` is modelled over Qt's `indexOf` and `mid`.
  - `random_string` and `random_number` take the successive `qrand()`
    results as a sequence of draws.

`common.dfy` holds an `Option` type and small integer helpers.

Some details of the model:

- `audio_peak_amplitude` is never initialised. For sample sizes other than 8
  and 16 `set_amplitude` leaves it unset, because its outer switch has no
  default. The constructor therefore takes `unsetPeak`, the indeterminate
  contents of that field. `PeakAmplitude` returns `None` for those sizes.
- `qAbs` computes in the type of its argument, so the most negative samples
  wrap. `qAbs` of the 8-bit value -128 is -128 again, and storing it in a
  `quint16` gives 0xFF80. The 16-bit value -32768 gives 0x8000. Both are
  above the signed peak, so the clamp yields level 100.
- `writeData` divides by the frame size only when the peak is non-zero.
  `WriteData` therefore requires a non-empty frame only in that case.

## Model

| member | source | states |
|---|---|---|
| AudioInput.PeakAmplitude | Singular/audioinputsurface.cpp:79-128 | unset (None) exactly when the size is neither 8 nor 16; otherwise 2^size - 1 for unsigned, 2^(size-1) - 1 for signed, 0 for any other sample type |
| AudioInput.AudioInputSurface.SetAmplitude | Singular/audioinputsurface.cpp:79-128 | the peak field becomes the format's peak amplitude, or keeps its old value when the size is neither 8 nor 16; the class invariant holds afterwards |
| AudioInput.AudioInputSurface.constructor | Singular/audioinputsurface.cpp:31-66 | the id and the negotiated format are stored, nothing is emitted, and the peak is the one set_amplitude assigns (the indeterminate initial value otherwise) |
| AudioInput.AbsInt8 | Singular/audioinputsurface.cpp:202-205 | the magnitude of a signed byte is its two's-complement absolute value, except 0x80, which wraps to 0xFF80 |
| AudioInput.AbsInt16 | Singular/audioinputsurface.cpp:217-227 | the magnitude of a signed word is its two's-complement absolute value, except 0x8000, which stays 0x8000 |
| AudioInput.Word | Singular/audioinputsurface.cpp:206-216 | little-endian puts the first byte in the low half and the second in the high half; big-endian the reverse |
| AudioInput.DecodeAtCases | Singular/audioinputsurface.cpp:196-227 | the contract of the decoder `DecodeAt`: 8-bit unsigned is the raw byte; 8-bit signed is the absolute value; 16-bit is b0 + 256*b1 (little-endian) or 256*b0 + b1 (big-endian), with the absolute value for signed; the most negative signed sample exceeds the peak; other sample types decode to 0 |
| AudioInput.DecodeWithinPeak | Singular/audioinputsurface.cpp:73-128 | for sizes 8 and 16 every decoded magnitude is at most the peak amplitude, except the most negative signed value; some two bytes decode to exactly the peak |
| AudioInput.FrameSizes | Singular/audioinputsurface.cpp:185-186 | the contract of `SampleBytes` and `FrameBytes`: sample_bytes is 1 for 8-bit, 2 for 16-bit and 0 below 8 bits; channel_bytes is positive exactly when there is a channel and the sample size is at least 8 |
| AudioInput.ScannedSamples | Singular/audioinputsurface.cpp:185-192 | only whole frames are scanned: the count is a multiple of the (positive) channel count, the scanned samples fit in maxSize bytes, and fewer than one frame's bytes are left over; together these fix the count |
| AudioInput.Samples | Singular/audioinputsurface.cpp:192-231 | one magnitude per scanned sample, over all channels of all frames in buffer order |
| AudioInput.SampleIndex | Singular/audioinputsurface.cpp:189-230 | sample k is decoded at byte k * sample_bytes, and its bytes end inside the scanned region |
| AudioInput.SeqMaxIsMax | Singular/audioinputsurface.cpp:183-231 | the contract of the qMax fold `SeqMax`: the running maximum starts at 0 and ends as the largest magnitude among the samples, one of them when there are any |
| AudioInput.SeqMaxAppend | Singular/audioinputsurface.cpp:229 | proof step for ScanStep: folding one more magnitude into the running maximum keeps the larger of the two, as qMax does |
| AudioInput.SamplesBelowCount | Singular/audioinputsurface.cpp:192-230 | the first n samples are exactly those the pointer walks past in its first n * sample_bytes bytes |
| AudioInput.SamplesBelowStep | Singular/audioinputsurface.cpp:196-230 | proof step for ScanStep: advancing the pointer by one sample adds exactly the sample decoded at the old pointer |
| AudioInput.ScannedBytes | Singular/audioinputsurface.cpp:185-192 | the pointer stops at the end of the last whole frame, and the samples below it are the scanned samples |
| AudioInput.ScanStep | Singular/audioinputsurface.cpp:196-230 | one inner-loop step turns the maximum of the samples below the pointer into the maximum below the advanced pointer |
| AudioInput.AudioInputSurface.ScanFrames | Singular/audioinputsurface.cpp:183-231 | the two nested loops leave the running maximum equal to the largest magnitude of the scanned samples (0 when there are none) |
| AudioInput.Level | Singular/audioinputsurface.cpp:234-235 | the level lies in [0, 100] and is min(max, peak) * 100 / peak rounded down (level * peak <= min * 100 < (level + 1) * peak) |
| AudioInput.LevelAtPeak | Singular/audioinputsurface.cpp:234-235 | a maximum at or above the peak gives level 100 |
| AudioInput.SilentBufferLevel | Singular/audioinputsurface.cpp:183-235 | an all-zero buffer reports level 0 in every format |
| AudioInput.FullScaleLevel | Singular/audioinputsurface.cpp:229-235 | any scanned sample of any channel at or above the peak gives level 100 |
| AudioInput.UnsupportedSizeLevel | Singular/audioinputsurface.cpp:181-237 | for a sample size other than 8 and 16 no decoder branch matches, so any non-zero peak field (the never-assigned one included) yields an emitted level of 0 |
| AudioInput.MostNegativeLevel | Singular/audioinputsurface.cpp:198-235 | a most negative signed sample (0x80 or 0x8000) in the scanned frames gives level 100, not more |
| AudioInput.SamplesOfPrefix | Singular/audioinputsurface.cpp:192-231 | the first n magnitudes depend only on the first n * sample_bytes bytes |
| AudioInput.TrailingBytesIgnored | Singular/audioinputsurface.cpp:185-192 | bytes after the last whole frame never affect the level |
| AudioInput.StereoExampleLevel | Singular/audioinputsurface.cpp:179-241 | 16-bit signed little-endian stereo frames (0, 0), (0x4000, 0) give level 50 |
| AudioInput.AudioInputSurface.WriteData | Singular/audioinputsurface.cpp:179-241 | keeps the class invariant (the peak matches the format) and always returns maxSize; emits nothing when the peak is 0; otherwise emits exactly one (id, level) with the level of the scanned frames |
| Helper.ParseJsonObject | Singular/helper.cpp:32-58 | the listings after the loop over the object's keys are those of the harvest of that object |
| Helper.ParseJsonArray | Singular/helper.cpp:72-86 | the listings after the loop over the array are those of the harvest of that array |
| Helper.HarvestIsInsertAll | Singular/helper.cpp:32-86 | the harvest inserts the tree's scalar members one after another in traversal order, wanted keys only |
| Helper.InsertAllLookup | Singular/helper.cpp:48-54 | after insertions a wanted key holds the value of its last pair; every other key keeps its prior entry or stays absent |
| Helper.HarvestLastWins | Singular/helper.cpp:52 | for a repeated key the value visited last wins; keys never visited or not wanted keep their prior entries |
| Helper.VisitsAreScalars | Singular/helper.cpp:38-47 | only non-object, non-array values are ever inserted; objects and arrays are descended into |
| Helper.HarvestInsertsOnlyWantedScalars | Singular/helper.cpp:38-56 | every entry added or changed is under a wanted key and holds a scalar found under that key in the tree |
| Helper.HarvestIdempotent | Singular/helper.cpp:32-58 | harvesting the same tree twice gives the same listings as once |
| Helper.ScalarItemsIgnored | Singular/helper.cpp:75-85 | a scalar item inserted at any position of an array leaves the harvest of that array unchanged |
| Helper.IndexOf | Singular/helper.cpp:146-147 | -1 or the first index at or after `from` where the pattern occurs |
| Helper.Mid | Singular/helper.cpp:149 | n characters from the position, the rest of the text when n is negative or too long, empty past the end |
| Helper.Substring | Singular/helper.cpp:144-150 | the result is a prefix of the text that follows the end of the first start marker (position \|start\| - 1 when there is none), and empty when that position is past the end |
| Helper.SubstringBetweenMarkers | Singular/helper.cpp:144-150 | with start first at p and end first at q >= p + \|start\|, the result is exactly the text in between |
| Helper.SubstringWithoutEnd | Singular/helper.cpp:144-150 | with no end marker after the start marker, the result is the rest of the text |
| Helper.SubstringWithoutStart | Singular/helper.cpp:146-149 | with the start marker absent, the result is a slice of the text beginning at index \|start\| - 1 |
| Helper.RandomString | Singular/helper.cpp:160-173 | exactly max(length, 0) characters, the i-th being the possible character at draw i mod 62, each a letter or digit |
| Helper.AlphabetIsAlphanumeric | Singular/helper.cpp:163 | the 62 possible characters are A-Z, a-z, 0-9 in that order |
| Helper.EveryAlphanumericDrawable | Singular/helper.cpp:163-168 | every letter and digit is chosen by some draw |
| Helper.CRem | Singular/helper.cpp:187 | C's remainder: within [0, \|b\|) and at most the dividend for a non-negative dividend, and dividend = q * b + remainder |
| Helper.RandomNumber | Singular/helper.cpp:185-188 | with low <= high the result lies in [low, high]; in general it lies in [low, low + \|span\|); it is never more than the draw above low |
| Helper.RandomNumberCovers | Singular/helper.cpp:187 | with draws in [0, RAND_MAX], a value of [low, high] at most RAND_MAX above low is produced by some draw, and a value further above low by none |

## Left out

- Opening, starting and stopping the device (`start`, `stop`,
  Singular/audioinputsurface.cpp:134-148) are thin calls into `QAudioInput`.
  They are not modelled.
- `readData` returns 0 and is not modelled. The logging (`output`,
  `device_print`, `notified`, `stateChanged`) is not modelled either.
- Format negotiation in the constructor (`isFormatSupported`,
  `nearestFormat`) is a Qt call. The constructor takes the final format as
  input instead.
- The sample rate and the codec of the format are not read by the meter.
  They are not modelled.
- Integer widths: `maxSize` is taken as a natural number no larger than the
  buffer. The conversion of `maxSize / channel_bytes` to `int` is not
  modelled for buffers of 2^31 or more frames.
- Helper.RandomNumber: requires the span `(high + 1) - low` to be non-zero.
  For `random_number(low, low - 1)` the source divides by zero, which is
  undefined behaviour, so the model has nothing to return there.
- Helper.RandomNumber: computes `high + 1` and `(high + 1) - low` on
  unbounded integers. In the source both are `int` and overflow, e.g. `high`
  equal to `INT_MAX`, or a span above `INT_MAX` as in
  `random_number(INT_MIN, 0)`. The results for such arguments are not
  modelled.
- Helper.Substring: positions count Unicode scalar values, one per `char`.
  `QString` counts UTF-16 code units. For text or markers with characters
  outside the Basic Multilingual Plane, the source's positions differ from
  the model's. This includes the start position `|start| - 1` when the start
  marker is absent. `mid` can also split a surrogate pair there, which the
  model cannot express.
- `qrand()` is replaced by a sequence of non-negative draws. Its bound
  `RAND_MAX` is a parameter of `RandomNumberCovers` only. Uniformity is not
  modelled.
- Helper.AlphabetIsAlphanumeric: the possible characters are defined as the
  runs A-Z, a-z and 0-9. This is the same 62 characters in the same order as
  the source's string literal, but the model does not state equality with
  that literal.
- JSON values: numbers are modelled as `real` rather than IEEE doubles.
  `QJsonValue::Undefined` is not modelled. An object's members are given as
  the (key, value) pairs in the order `keys()` returns them. The model
  assumes each key appears once, as in a `QJsonObject`. The `QVariant`
  stored in the hash is modelled as the JSON value itself.
- The `microphone_data` signal is recorded in a ghost log. Delivery to the
  connected slot is not modelled.
- `price_converter` and `percentage` use floating point and `round`. They
  are not part of this model.
- `get_thread_id` formats a thread pointer and `proxy_type` maps onto a
  `QNetworkProxy` enum. Neither is part of this model.
- Camera surfaces, camera and audio widgets, the audio output stub, device
  enumeration, the main window and the text console are Qt glue. They are
  not part of this model.
