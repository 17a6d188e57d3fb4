# StegSleuth detection engine in Dafny

StegSleuth inspects a media asset for signs of hidden data. It ships two front
ends over the same logic. One is a text console (`stegsleuth.py`). The other is
a Tk window (`stegsleuth_gui.py`). This project models what the two share and
where they differ:

- **Classifier.** A file name is lower-cased and tested against suffixes:
  `.png/.jpg/.jpeg` is an image, `.wav/.mp3` audio, `.mp4/.avi` video. The
  console also knows `.pdf`; everything else is `unknown`. No suffix of the
  table is a suffix of another, so at most one rule matches a name
  (`Names.SuffixesExclusive`), and each kind is chosen exactly when its own
  suffixes match.
- **Image analyzer.** It walks the decoded pixel array in row-major order and
  writes `R&1`, `G&1`, `B&1` of each pixel as `'0'`/`'1'` characters.
- **Audio analyzer.** It reads the WAV frames as signed 16-bit samples in the
  host's byte order (little-endian in the model) and returns the increasing
  indices of the odd samples.
- **Video analyzer.** It returns one sum of all channel bytes per sampled
  frame, in order.
- **Selection and dispatch.** The console keeps a selected asset and its kind
  and runs exactly one analyzer for that kind. The GUI classifies the
  dropdown's text each time "analyze" is pressed. Each front end decides
  "detected" from the analyzer's output and shows a prefix of it.

Modules: `Wrappers` (Option), `Names` (kinds, ASCII lower-casing, the suffix
rules), `Signals` (decoded media types and the signals as specification
functions, with their laws), `Findings` (what is reported), `Console`
(`stegsleuth.py`), `Gui` (`stegsleuth_gui.py`), and `Variants` (how the two
relate, plus worked examples). The list-building analyzers are loop methods
proved equal to the specification functions. The asset lists and the front
ends' selection state are classes whose methods state the new state.

The media libraries are not modelled. What they decode is an input
(`Findings.MediaFile`). A decoder that raises is `None` there and produces
`DecodeFailed`. Neither front end catches such an exception.

Three facts about the code that shape the model:

- When no suffix rule matches, the kind is `unknown`.
- An undecodable file raises an exception that neither front end catches. The
  model shows it as the `DecodeFailed` finding.
- numpy's `%` floors. With divisor 2, a floored, truncated or Euclidean
  remainder is non-zero for exactly the same samples, so negative odd samples
  such as -3 count.

## Model

| member | source | states |
|---|---|---|
| `Console.DetectAssetType` | stegsleuth.py:131-141 | image iff the lower-cased name ends with .png/.jpg/.jpeg; audio iff .wav/.mp3; video iff .mp4/.avi; pdf iff .pdf; otherwise unknown — total |
| `Console.DetectAssetTypeIgnoresCase` | stegsleuth.py:132 | a name and its lower-cased form are classified alike |
| `Names.Lower` | stegsleuth.py:132 | `str.lower()` over ASCII keeps the length, leaves no upper-case letter, maps each of A-Z to the letter at the same place in a-z and keeps every other character |
| `Names.EndsWith` | stegsleuth.py:138 | `endswith(suffix)` holds exactly when the name is some prefix followed by the suffix |
| `Names.EndsWithAny` | stegsleuth.py:132-137 | definition of the built-in `endswith(tuple)`: true exactly when one of the tuple's suffixes matches, so never for an empty tuple |
| `Names.LowerIdempotent` | stegsleuth.py:132-138 | lower-casing twice equals lower-casing once (each test re-lowers the name) |
| `Names.SuffixShape` | stegsleuth.py:132-138 | every suffix tested is four characters starting with '.', or ".jpeg" |
| `Names.SuffixesExclusive` | stegsleuth.py:132-138 | no name ends with two different suffixes of the table |
| `Names.RulesExclusive` | stegsleuth.py:132-138 | two rules with disjoint suffix lists never both accept a name |
| `Names.RuleTableExclusive` | stegsleuth.py:132-138 | the image, audio, video and pdf rules never overlap, so their order does not matter |
| `Console.DetectLsbSteganography` | stegsleuth.py:50-62 | the loop's string equals the bit plane `LsbPlane` of the pixel array |
| `Signals.Bit` | stegsleuth.py:57-61 | the character for `b & 1` is '0' or '1', and '1' exactly for odd bytes |
| `Signals.LsbBitsSpec` | stegsleuth.py:55-61 | three characters per pixel; character i is channel i%3 of pixel i/3, `& 1` |
| `Signals.LsbPlaneSpec` | stegsleuth.py:55-61 | the image's bit string has 3 × pixels characters, all '0'/'1', and character 3k+c is channel c (R, G, B) of the k-th pixel in row-major order; alpha is ignored |
| `Signals.LsbBitsAppend` | stegsleuth.py:56-59 | taking one more pixel of the current row appends its R, G and B bits, in that order |
| `Signals.FlattenSpec` | stegsleuth.py:55-56 | the row-major walk `Flatten` visits exactly the pixels of the rows, none added, the first row first |
| `Signals.FlattenLength` | stegsleuth.py:55-56 | a W-by-H image has W·H pixels |
| `Signals.FlattenAt` | stegsleuth.py:55-56 | pixel (row, col) of a W-wide image is number row·W + col in row-major order |
| `Signals.LsbPlane` | stegsleuth.py:61-62 | the returned string has three characters per pixel, each '0' or '1' |
| `Signals.LsbPlaneAt` | stegsleuth.py:55-61 | in a W-by-H image, characters 3(row·W + col), +1 and +2 are the R, G and B low bits of pixel (row, col) |
| `Signals.LsbPlaneLength` | stegsleuth.py:55-61 | a W-by-H image gives exactly W·H·3 characters |
| `Signals.LsbPlaneEmpty` | stegsleuth.py:53-62 | the bit string is empty exactly when the image has no pixel (no error) |
| `Console.DetectAudioSteganography` | stegsleuth.py:64-70 | fails exactly on an odd number of bytes; otherwise a strictly increasing list whose members are exactly the sample indices whose low byte is odd |
| `Signals.Int16Of` | stegsleuth.py:67 | two bytes give a signed 16-bit value whose parity is that of the low byte |
| `Signals.DecodeInt16` | stegsleuth.py:67 | decoding succeeds iff the length is even, and gives half as many values as bytes, in the 16-bit range |
| `Signals.Int16RoundTrip` | stegsleuth.py:67 | decoding the two bytes of a sample gives the sample back |
| `Signals.Int16BytesRoundTrip` | stegsleuth.py:67 | encoding a decoded byte pair gives the pair back |
| `Signals.DecodeEncode` | stegsleuth.py:67 | decoding the bytes that store a sample buffer gives that buffer back |
| `Signals.DecodeParity` | stegsleuth.py:67-69 | sample i is odd exactly when byte 2i is odd |
| `Signals.OddIndices` | stegsleuth.py:69 | i is in the result iff 0 ≤ i < n and sample i is odd (negative ones included); strictly increasing; all below n |
| `Signals.IncreasingUnique` | stegsleuth.py:69 | two strictly increasing lists with the same members are equal |
| `Signals.OddIndicesUnique` | stegsleuth.py:69 | any strictly increasing list of exactly the odd indices is the scan's result |
| `Signals.OddIndicesAllEven` | stegsleuth.py:69 | an all-even buffer gives the empty list |
| `Signals.OddIndicesAllOdd` | stegsleuth.py:69 | an all-odd buffer of length N gives [0, …, N-1] |
| `Signals.OddIndicesExample` | stegsleuth.py:69 | [0,1,2,3,-3,-4] gives [1,3,4] |
| `Console.DetectVideoSteganography` | stegsleuth.py:72-79 | one entry per frame, in order; entry i is the sum of every channel byte of frame i, and at most 255 × its number of values |
| `Signals.PixelSum` | stegsleuth.py:77 | a pixel's sum is at most 255 × channels, and zero iff every channel is zero |
| `Signals.RowSum` | stegsleuth.py:77 | a row's sum is at most 255 × its number of values |
| `Signals.FrameSum` | stegsleuth.py:77 | a frame's sum (`frame.sum()`) is at most 255 × its number of values |
| `Console.AssetManager.constructor` | stegsleuth.py:26-28 | the asset list starts empty |
| `Console.AssetManager.ListAssets` | stegsleuth.py:30-32 | the asset list becomes the folder's file listing, which is returned |
| `Console.AssetManager.SelectAsset` | stegsleuth.py:34-39 | returns assets[n-1] iff 0 < n ≤ len(assets), else None; the list is not changed |
| `Console.SteganographyConsole.constructor` | stegsleuth.py:82-85 | nothing is selected, and the asset list is empty |
| `Console.SteganographyConsole.ListAssets` | stegsleuth.py:110-111 | the asset list is refreshed and the selection is kept |
| `Console.SteganographyConsole.SelectAsset` | stegsleuth.py:119-129 | name and kind change only on a successful lookup of a non-empty name; they change together, and the kind is the classification of the name; a bad or missing number keeps the previous selection |
| `Console.IsTruthy` | stegsleuth.py:144 | definition of Python truthiness for the selected name, here and at stegsleuth.py:123: `None` and the empty string are its only false values |
| `Console.Dispatch` | stegsleuth.py:150-159 | image, audio and video each run their own analysis, pdf goes to the metadata tool (`PdfMetadata`), and no kind or unknown is unsupported |
| `Console.SteganographyConsole.AnalyzeSelectedFile` | stegsleuth.py:143-159 | nothing runs without a selection; otherwise exactly the analysis for the stored kind, which (by the selection invariant) is the classification of the stored name |
| `Console.SteganographyConsole.AnalyzeImage` | stegsleuth.py:161-167 | reports the verdict on the pixel array's bit plane |
| `Console.SteganographyConsole.AnalyzeAudio` | stegsleuth.py:178-184 | reports the verdict on the odd-sample indices |
| `Console.SteganographyConsole.AnalyzeVideo` | stegsleuth.py:186-192 | reports the verdict on the frame sums |
| `Findings.Prefix` | stegsleuth.py:165 | `s[:n]` is a prefix of s of length min(len(s), n) |
| `Findings.ImageVerdict` | stegsleuth.py:164-167 | detected iff the bit string is non-empty; the shown part is a prefix of at most 100 bits |
| `Findings.AudioVerdict` | stegsleuth.py:181-184 | detected iff there is an anomaly; at most 10 indices shown, a prefix |
| `Findings.VideoVerdict` | stegsleuth.py:189-192 | detected iff a frame was sampled; at most 10 sums shown, a prefix |
| `Findings.ImageOutcome` | stegsleuth.py:163-167 | a decodable image is reported as carrying data iff it has at least one pixel |
| `Findings.Samples` | stegsleuth.py:66-67 | the WAV frames decode to samples exactly when their byte count is even; then there are half as many samples, and sample i has the parity of byte 2i |
| `Findings.AudioOutcome` | stegsleuth.py:180-184 | decodable audio is reported as carrying data iff some sample is odd |
| `Findings.VideoOutcome` | stegsleuth.py:188-192 | a decodable video is reported as carrying data iff at least one frame was sampled |
| `Gui.AssetManager.constructor` | stegsleuth_gui.py:14-16 | the asset list starts empty |
| `Gui.AssetManager.ListAssets` | stegsleuth_gui.py:18-20 | the asset list becomes the folder's file listing |
| `Gui.AssetManager.SelectAsset` | stegsleuth_gui.py:30-34 | returns assets[n-1] iff 0 < n ≤ len(assets), else None |
| `Gui.SteganographyDetect.DetectLsbSteganography` | stegsleuth_gui.py:38-51 | the loop's string equals the bit plane of the pixel array: 3 × pixels characters, per-position law as in the console |
| `Gui.SteganographyDetect.DetectAudioSteganography` | stegsleuth_gui.py:53-60 | fails exactly on an odd number of bytes; otherwise exactly the strictly increasing indices of the odd decoded samples |
| `Gui.SteganographyDetect.DetectVideoSteganography` | stegsleuth_gui.py:62-70 | one per-frame byte sum per sampled frame, in order |
| `Gui.DetectAssetType` | stegsleuth_gui.py:172-180 | never pdf; image, audio and video iff their suffixes match the lower-cased name |
| `Gui.Dispatch` | stegsleuth_gui.py:139-146 | image, audio and video each run their own analysis; anything else, pdf included, is unsupported |
| `Gui.StegSleuthGui.constructor` | stegsleuth_gui.py:74-98 | the dropdown shows the placeholder and nothing is selected |
| `Gui.StegSleuthGui.ListAssets` | stegsleuth_gui.py:110-118 | the asset list is refreshed; a non-empty list resets the dropdown to the placeholder, and an empty one leaves it |
| `Gui.StegSleuthGui.ChooseAsset` | stegsleuth_gui.py:118 | choosing a menu entry sets the dropdown's text |
| `Gui.StegSleuthGui.AnalyzeAsset` | stegsleuth_gui.py:128-146 | with the placeholder nothing runs and the stored kind is kept; otherwise the kind is the name's classification and exactly its analysis runs |
| `Gui.StegSleuthGui.AnalyzeImage` | stegsleuth_gui.py:148-154 | reports the verdict on the bit plane |
| `Gui.StegSleuthGui.AnalyzeAudio` | stegsleuth_gui.py:156-162 | reports the verdict on the odd-sample indices |
| `Gui.StegSleuthGui.AnalyzeVideo` | stegsleuth_gui.py:164-170 | reports the verdict on the frame sums |
| `Variants.ClassifiersAgreeExceptPdf` | stegsleuth_gui.py:172-180 | the GUI gives the console's kind for every name, except that pdf becomes unknown |
| `Variants.DispatchAgrees` | stegsleuth_gui.py:139-146 | for a name that is not a pdf, both front ends produce the same finding |
| `Variants.PdfRoutedDifferently` | stegsleuth.py:156-157 | a pdf goes to the metadata tool in the console and is unsupported in the GUI |
| `Variants.PhotoIsImage` | stegsleuth.py:131-133 | "photo.PNG" is an image |
| `Variants.ClipIsVideo` | stegsleuth.py:136-137 | "clip.AVI" is a video |
| `Variants.NotesIsPdfOnlyInConsole` | stegsleuth_gui.py:172-180 | "notes.pdf" is pdf in the console and unknown in the GUI |
| `Variants.DataIsUnknown` | stegsleuth.py:140-141 | "data.bin" is unknown, not an error |
| `Variants.AudioScanExample` | stegsleuth.py:64-70 | the bytes of samples [0,1,2,3,-3,-4] give anomalies [1,3,4] in both front ends |

## Left out

- Start-up side effects: clearing the screen, exiting on non-POSIX systems, the banner and colour set-up. They are terminal effects.
- The command loop (`run`), `display_help` and all printing. They are console I/O.
- The Tk window: widgets, option-menu rebuilding, the result text box, message boxes and the file dialog. The dropdown is modelled as its current text.
- Reading the asset folder. `ListAssets` takes the folder's regular files as a parameter.
- `upload_asset` in both front ends. It copies a file into the folder.
- Joining the folder and the asset name into a path. Names stand for their files.
- The exiftool and OCR steps of the console's image analysis. These are external tools whose output is printed unchanged. Their failure path is left out too: the exiftool command is built by pasting the unquoted path into a shell command line (stegsleuth.py:169), so a name with a space breaks it and a name with `;` runs a second command; a non-zero exit raises an exception nobody catches, and the console aborts right after printing the image verdict. The model's `ImageOutcome` is the verdict alone.
- The pdfinfo call. The model reports only that the console hands a pdf to it (`PdfMetadata`).
- The decoders: image opening and conversion to an array, WAV opening and frame reading, and video frame sampling at one frame per second. Their output is an input of the model, and a decoder that raises is an input too.
- Pixels with fewer than three channels. Arrays with no channel axis (grayscale, palette, bilevel, 32-bit integer or float images) raise at `pixel[0]` of the first pixel (stegsleuth.py:57, stegsleuth_gui.py:46), before any bit is appended. Two-channel LA/PA arrays raise at `pixel[2]` (stegsleuth.py:59, stegsleuth_gui.py:48) after that pixel's two bits. The model's pixels always have at least three channels.
- Parsing the argument of `select <n>`. It is a parameter: an optional integer.
- `str.lower()` beyond ASCII. Only A-Z are lower-cased.
- The host's byte order. `np.frombuffer(frames, dtype=np.int16)` (stegsleuth.py:67) reads the host's native order; the model assumes a little-endian host.
- numpy's integer widths. Frame sums and sample indices are unbounded naturals.
