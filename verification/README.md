# FoodID Android app: prediction core in Dafny

The app photographs a dish, packs the photo into the byte layout a TensorFlow
Lite food classifier expects, runs the classifier and shows the label of the
highest-scoring class. Everything around that is Android UI and Firebase glue.
This project models the three pure computations in `MainActivity.kt` and proves
what they compute:

- **Pixel packing** (`preprocessImage`), module `Preprocessing` in
  `preprocessing.dfy`. A 192 x 192 grid of 32-bit ARGB pixels becomes
  3 * 192 * 192 = 110592 bytes, R, G, B per pixel. Rows go top to bottom and
  columns left to right. Alpha is dropped. Kotlin's arithmetic `shr` is modelled
  as written. Its sign bits never reach the masked byte, and `Extract8`'s
  contract states this.
- **Prediction selection** (the end of `runInferenceOnImage`), module
  `Selection` in `selection.dfy`. Output bytes are compared as signed Kotlin
  `Byte`s. `maxByOrNull` keeps the first maximum. An empty buffer gives index -1,
  and the following `result[-1]` fails. A label index past the table's end also
  fails.
- **Label table parsing** (`readCsvFile`), module `LabelTable` in
  `label_table.dfy`. The header line is dropped. Every other line yields field
  `[1]` of `split(",")`, in order.
- **The pipeline**, module `Inference` in `inference.dfy`. It composes the three
  steps with the interpreter as a parameter. A missing interpreter (no model
  downloaded yet) leaves the 2024-byte output buffer all zero.

Module `Kotlin` in `kotlin.dfy` holds the shared value types: `Byte` for the
raw bits of a Kotlin `Byte` and `Option` for a nullable value.

The source throws exceptions on its error paths. The model returns them as
values of `Faults.Result` instead: `EmptyOutput`, `LabelIndexOutOfRange` and
`MalformedRow`.

Three behaviours of the code worth noting:

- With no model loaded there is no separate "no model" outcome. `run` is
  skipped, the zero buffer selects class 0, and the app shows `foodNames[0]`
  (`Inference.NoInterpreterPredictsFirstLabel`).
- Bytes are compared signed, as `Byte.toInt()` does. Whether that matches the
  model's quantisation cannot be decided from the code, so signed comparison is
  modelled as written (`Selection.SignedRanking`, `Selection.HighByteLoses`).
- The code has no invalid-image check of its own. Resizing is done by the
  platform, so the model takes the already resized 192 x 192 grid.

## Model

| member | source | states |
|---|---|---|
| Preprocessing.Shr | app/src/main/java/com/example/foodidandroidapp/MainActivity.kt:156-157 | Kotlin's `shr` keeps the sign bit, equals the logical shift for non-negative pixels and the logical shift with the vacated high bits set for negative ones; `Extract8` shows the sign fill never reaches an emitted byte |
| Preprocessing.Extract8 | app/src/main/java/com/example/foodidandroidapp/MainActivity.kt:156-158 | `(pixel shr n and 0xFF).toByte()` with Kotlin's arithmetic shift yields exactly bits n..n+7 of the pixel; the sign extension never reaches the byte |
| Preprocessing.Rgb | app/src/main/java/com/example/foodidandroidapp/MainActivity.kt:156-158 | the three `put`s of one pixel emit its channels in the order red, green, blue; with `RgbRoundTrip` they carry exactly the pixel's colour bits |
| Preprocessing.RgbRoundTrip | app/src/main/java/com/example/foodidandroidapp/MainActivity.kt:155-158 | rebuilding a pixel from its three emitted bytes gives back its colour bits: only alpha is lost |
| Preprocessing.RgbDeterminesColour | app/src/main/java/com/example/foodidandroidapp/MainActivity.kt:155-158 | two pixels emit the same three bytes if and only if their low 24 bits agree |
| Preprocessing.PackRow | app/src/main/java/com/example/foodidandroidapp/MainActivity.kt:154-159 | one row of pixels contributes three bytes per pixel |
| Preprocessing.Pack | app/src/main/java/com/example/foodidandroidapp/MainActivity.kt:153-160 | the whole y/x packing emits three bytes per pixel; its partners `PackAt` and `PackLaidOut` give every byte's position |
| Preprocessing.PackLength | app/src/main/java/com/example/foodidandroidapp/MainActivity.kt:150-160 | rows of n pixels pack to 3 * n bytes per row |
| Preprocessing.PackAt | app/src/main/java/com/example/foodidandroidapp/MainActivity.kt:153-160 | byte 3 (y n + x) + c of the buffer is channel c (R, G, B) of pixel (x, y): row-major, red first |
| Preprocessing.PackLaidOut | app/src/main/java/com/example/foodidandroidapp/MainActivity.kt:153-160 | the row-by-row packing of an n x n image has exactly the pointwise layout `LaidOut` |
| Preprocessing.PreprocessImage | app/src/main/java/com/example/foodidandroidapp/MainActivity.kt:147-163 | the nested y/x loop fills exactly 1 * 192 * 192 * 3 bytes, laid out pixel by pixel as R, G, B in row-major order |
| Preprocessing.PackIgnoresOnlyAlpha | app/src/main/java/com/example/foodidandroidapp/MainActivity.kt:153-158 | two images pack to the same buffer if and only if every pixel has the same colour bits in both |
| Preprocessing.UniformImage | app/src/main/java/com/example/foodidandroidapp/MainActivity.kt:153-158 | an image whose pixels all have channels (r, g, b), whatever their alpha, packs to a buffer whose every triplet is (r, g, b) |
| Selection.ToInt | app/src/main/java/com/example/foodidandroidapp/MainActivity.kt:176 | `Byte.toInt()` lies in -128..127, is congruent to the raw byte mod 256, and is negative exactly for raw bytes 0x80 and above |
| Selection.LeftmostMaxUnique | app/src/main/java/com/example/foodidandroidapp/MainActivity.kt:176 | the leftmost signed maximum is unique, so the selection is determined by the buffer |
| Selection.ScanFrom | app/src/main/java/com/example/foodidandroidapp/MainActivity.kt:176 | continuing `maxByOrNull`'s scan from a leftmost maximum of a prefix ends at the leftmost maximum of the whole buffer |
| Selection.IndexOfMax | app/src/main/java/com/example/foodidandroidapp/MainActivity.kt:176 | `maxByOrNull { result[it].toInt() } ?: -1` is -1 exactly for an empty buffer, and otherwise an in-range index whose signed value is at least every other and strictly above every earlier one |
| Selection.MaxByOrNull | app/src/main/java/com/example/foodidandroidapp/MainActivity.kt:176 | the replace-on-strictly-greater loop returns -1 on an empty buffer and the leftmost signed maximum otherwise |
| Selection.MaxByOrNullAgrees | app/src/main/java/com/example/foodidandroidapp/MainActivity.kt:176 | the loop and the functional scan choose the same index on every buffer |
| Selection.Select | app/src/main/java/com/example/foodidandroidapp/MainActivity.kt:176-182 | an empty buffer fails at `result[-1]`; otherwise the leftmost maximum is reported with its signed value and label, or fails as out of range when the label table is too short |
| Selection.SelectSucceedsIff | app/src/main/java/com/example/foodidandroidapp/MainActivity.kt:176-182 | selection succeeds if and only if the buffer is non-empty and its leftmost maximum indexes into the label table |
| Selection.FullTableNeverFails | app/src/main/java/com/example/foodidandroidapp/MainActivity.kt:182 | a label table at least as long as the buffer never fails the lookup |
| Selection.SignedRanking | app/src/main/java/com/example/foodidandroidapp/MainActivity.kt:176 | if any byte lies in 0..0x7F then the selected byte does too: raw bytes 0x80..0xFF rank below all of them |
| Selection.HighByteLoses | app/src/main/java/com/example/foodidandroidapp/MainActivity.kt:176 | raw bytes [200, 5] select index 1 |
| Selection.TieGoesLeft | app/src/main/java/com/example/foodidandroidapp/MainActivity.kt:176 | raw bytes [5, 5, 3, 5] select index 0, the leftmost of the tied maxima |
| Selection.ZeroBufferSelectsFirst | app/src/main/java/com/example/foodidandroidapp/MainActivity.kt:168-177 | an all-zero, non-empty buffer selects index 0 with value 0 |
| LabelTable.Fields | app/src/main/java/com/example/foodidandroidapp/MainActivity.kt:189 | `split(",")` yields at least one field; its partners `JoinFields` and `FieldsJoin` make it the exact inverse of joining with commas, empty fields included |
| LabelTable.FieldsShape | app/src/main/java/com/example/foodidandroidapp/MainActivity.kt:189 | `split(",")` yields at least two fields exactly when the line holds a comma, and no field holds a comma |
| LabelTable.SecondField | app/src/main/java/com/example/foodidandroidapp/MainActivity.kt:189 | `split(",")[1]` exists exactly when the line holds a comma, and it holds no comma itself |
| LabelTable.JoinFields | app/src/main/java/com/example/foodidandroidapp/MainActivity.kt:189 | joining the fields with commas gives back the line |
| LabelTable.FieldsJoin | app/src/main/java/com/example/foodidandroidapp/MainActivity.kt:189 | splitting comma-joined comma-free fields gives back the fields |
| LabelTable.SecondFieldOfRow | app/src/main/java/com/example/foodidandroidapp/MainActivity.kt:189 | field `[1]` is the text between the first comma and the next comma or the end of the line |
| LabelTable.LabelsFrom | app/src/main/java/com/example/foodidandroidapp/MainActivity.kt:188-190 | mapping lines start.. gives one label per line in order, or fails at the first line without a comma |
| LabelTable.ReadLabels | app/src/main/java/com/example/foodidandroidapp/MainActivity.kt:185-191 | succeeds if and only if every line after the header holds a comma; then label i is field `[1]` of line i + 1 and there are one fewer labels than lines (none for an empty file); otherwise it fails at the first line without a comma |
| LabelTable.ReadLabelsExample | app/src/main/java/com/example/foodidandroidapp/MainActivity.kt:187-190 | lines "id,name", "1,Apple", "2,Banana" give ["Apple", "Banana"] |
| Inference.Zeros | app/src/main/java/com/example/foodidandroidapp/MainActivity.kt:168 | `ByteBuffer.allocateDirect(1 * outputSize)` gives a buffer of exactly that many bytes, all zero |
| Inference.RunModel | app/src/main/java/com/example/foodidandroidapp/MainActivity.kt:168-174 | without an interpreter the 2024-byte buffer stays all zero; with one it holds what the interpreter writes for the packed input |
| Inference.Predict | app/src/main/java/com/example/foodidandroidapp/MainActivity.kt:165-182 | the pipeline never hits the empty-buffer failure; it succeeds exactly when the leftmost signed maximum of the model output has a label (always, with 2024 or more labels), reporting that class with its signed score and label; otherwise it fails as out of range at that same class index |
| Inference.RunInferenceOnImage | app/src/main/java/com/example/foodidandroidapp/MainActivity.kt:165-183 | the imperative pipeline, with the packing loop and the `maxByOrNull` loop, computes the same outcome as `Predict` |
| Inference.NoInterpreterPredictsFirstLabel | app/src/main/java/com/example/foodidandroidapp/MainActivity.kt:168-182 | with no model loaded the prediction is `foodNames[0]` with score 0, or an out-of-range failure for an empty table |
| Inference.PredictionIgnoresAlpha | app/src/main/java/com/example/foodidandroidapp/MainActivity.kt:165-170 | images that differ only in alpha get the same prediction from every model |
| Inference.StubModelScenario | app/src/main/java/com/example/foodidandroidapp/MainActivity.kt:170-182 | a stub model whose output has its single maximum at class 42 yields class 42, score 1 and label 42 |

## Left out

- Jetpack Compose UI (`Greeting`, `CameraButton`, `InferenceResultText`), the camera permission and rationale dialogs, Toasts: user interface.
- `downloadModel`: the Firebase download with its Wi-Fi condition and success and failure callbacks. This is network and asynchronous glue. Its only effect is whether an interpreter exists, which is the `Option<Interpreter>` parameter.
- `Interpreter.run`: opaque native inference. It is a parameter that returns 2024 bytes. Shape errors raised inside the engine are not modelled.
- `Bitmap.createScaledBitmap`: platform bilinear resampling. The model starts from the resized 192 x 192 grid.
- `ByteBuffer` allocation, native byte order, position and `rewind`: these do not change single-byte contents, so sequences stand in for buffers.
- Opening the raw resource and `readLines`: the label file arrives already split into lines.
- `Log.d`, the diagnostic "Index of max value" text (set at line 180, overwritten at line 182 when the lookup succeeds; when the lookup throws, the exception escapes uncaught), and the formatting of "Predicted food: <label>": display strings only.
- Repeated runs on the same image and model give the same result. That holds because the interpreter is modelled as a deterministic function of its input, so the model assumes the engine keeps no state between calls, and every member is pure; no separate lemma states it.
