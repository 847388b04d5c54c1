# Image resizer: a Dafny model of its resizing core

The resizer is a single browser page (`script.js`). A user uploads an image
and gets a resized copy in one of two ways:

- **By dimensions.** The image is drawn on a canvas at the requested width and
  height and encoded once, in the original file's MIME type.
- **By target size.** The image is drawn at its own dimensions. The JPEG
  quality is then lowered from 0.9 in steps of 0.05 until the encoded size is
  at most the target number of kilobytes, or the quality reaches the floor 0.1.

Every encode is turned into a `Blob` by `dataURLtoBlob`. That function splits
the data URL at its commas and takes the MIME type from the header with the
pattern `/:(.*?);/`. It base64-decodes the payload with `atob` and copies the
character codes into a `Uint8Array` from the back. The result is shown with a
download name `resized-<timestamp>.<original extension>`.

Modules:

- `Wrappers` (wrappers.dfy): `Option` and `Result`.
- `Text` (text.dfy): `split` with a one-character separator (and its inverse,
  `Join`), the last piece of a split (`pop`), and `startsWith`.
- `DataUrl` (data_url.dfy): `dataURLtoBlob`.
  - `ToBlob` is the function that specifies it.
  - `DataUrlToBlob` is the method with the in-place array copy (`CopyCodes`).
  - `MimeOf` models the regular expression, including that `.` does not
    match line terminators.
- `Resize` (resize.dfy): `resizeImage` and its quality search
  `findBestQuality`.
  - Quality is in integer hundredths.
  - The canvas encoder `toDataURL` is a parameter: a function from an
    `EncodeRequest` (canvas dimensions, MIME type, optional quality) to a data
    URL.
  - The methods return the list of encode requests they made, in order, so
    that the contracts can speak about every encode.
- `Session` (session.dfy): the page state and its handlers.
  - The class `Resizer` holds `originalImageFile`, which `handleFile` assigns.
  - Also here: the dimension check, the download name, and the two button
    handlers.

`atob` is a parameter too, because the code does not implement it. It
returns the decoded character codes (each below 256), or `None` where it
throws. The clock reading `Date.now()` is a parameter of the handlers.

## Model

| member | source | states |
|---|---|---|
| `Text.StartsWith` | script.js:44 | `s.startsWith(p)` holds exactly when `p` is no longer than `s` and is its prefix |
| `Text.Split` | script.js:159 | `split` returns at least one piece and no piece contains the separator |
| `Text.JoinSplit` | script.js:159 | joining the pieces of a split with the separator gives back the original text |
| `Text.SplitJoin` | script.js:159 | splitting a join of separator-free pieces gives back the pieces; with `JoinSplit`, split is a bijection onto non-empty lists of separator-free pieces |
| `Text.SplitAround` | script.js:117 | a separator splits a text into the pieces of its left side followed by the pieces of its right side |
| `Text.LastPieceWithoutSep` | script.js:117 | `split(sep).pop()` of a text without the separator is the whole text |
| `Text.LastPieceAfterLastSep` | script.js:117 | otherwise `split(sep).pop()` is the text after the last separator |
| `DataUrl.CopyCodes` | script.js:161-165 | the `while (n--)` loop fills an array of the decoded length, so that entry `i` is the code of decoded character `i` for every `i` |
| `DataUrl.DataUrlToBlob` | script.js:158-167 | the method, array copy included, returns exactly the blob (or the error) `ToBlob` specifies |
| `DataUrl.ToBlob` | script.js:158-167 | the definition of what `dataURLtoBlob` returns or throws. It succeeds exactly when the MIME match and `atob` both succeed. The MIME match is tried before `atob`, so a header without a match fails with `NoMimeType` whatever the payload. A matching header with a payload `atob` rejects fails with `InvalidBase64`. A blob's type is the captured text and its bytes are `atob`'s output. `WellFormedDataUrl`, `HeaderAndPayload` and `HeaderWithoutPatternFails` characterise it |
| `DataUrl.LazyEnd` | script.js:159 | the lazy `(.*?);` ends at a `;` with no `;` and no line terminator before it |
| `DataUrl.MatchFrom` | script.js:159 | the leftmost match of `/:(.*?);/` from a position: its capture has no `;` and no line terminator |
| `DataUrl.MimeOf` | script.js:159 | `header.match(/:(.*?);/)[1]`; the definition is characterised by `MimeBetweenColonAndSemicolon` and `NoMimeWithoutPattern` |
| `DataUrl.MimeBetweenColonAndSemicolon` | script.js:159 | for a header without line breaks, the MIME type is the text between the first `:` and the next `;` after it |
| `DataUrl.NoMimeWithoutPattern` | script.js:159 | for a header without line breaks, there is no match (and `[1]` of null throws) exactly when no `:` is followed by a `;` |
| `DataUrl.HeaderAndPayload` | script.js:159-160 | `arr[0]` is the text before the first comma; `arr[1]` is the text from there to the next comma, and anything after that is ignored |
| `DataUrl.PayloadWithoutComma` | script.js:159-160 | a URL without a comma is all header, and `atob` receives `undefined`, i.e. the text "undefined" |
| `DataUrl.WellFormedDataUrl` | script.js:158-167 | `data:<mime>;base64,<payload>` converts to a blob of type `<mime>` with the same number of bytes as `atob` decodes, equal position by position |
| `DataUrl.HeaderWithoutPatternFails` | script.js:159 | any header in which no `:` is followed by a `;`, line breaks or not, makes the conversion fail with `NoMimeType`, whatever the payload |
| `Resize.FindBestQuality` | script.js:85-102 | the search makes between 1 and 17 encodes. The k-th is JPEG at quality 90 − 5k hundredths, on the same canvas. Every encode before the last converted and was over the target. The result is the conversion of the last encode, so `dataUrl` and `blob` come from the same encode. A result over the target occurs only at the 17th encode (0.1). If the first encode at 0.9 fits (or fails), nothing else is encoded. The number of encodes is `SettleIndex + 1`, so the quality chosen is the first that fits, else 0.1 |
| `Resize.Package` | script.js:88-89 | one `toDataURL` call followed by `dataURLtoBlob` on its result (also lines 98-99 and 106-107). On success the `dataUrl` is the encoder's output and the `blob` is its conversion, so both come from the same encode. It fails exactly when that conversion fails, with the same error |
| `Resize.SettleIndex` | script.js:93-99 | an independent first-fit definition of where the search settles: an index in 0..16. Every encode on the ladder before it is over the target. The encode at it is within the target, or failed to convert, unless it is the floor |
| `Resize.ResizeImage` | script.js:77-110 | every encode is of the canvas at the requested width and height, and the result is the conversion of the last encode. A falsy target (undefined, NaN, 0) makes exactly one encode, in the original type and without a quality. A truthy target runs the quality search, with its stopping rule: every encode before the last was over the target, the result is over the target only at 0.1, and there are `SettleIndex + 1` encodes |
| `Session.DimensionsOk` | script.js:124-129 | dimensions are accepted exactly when both parsed values are integers greater than 0; NaN and 0 are rejected |
| `Session.DecimalString` | script.js:118 | the timestamp text is non-empty and all decimal digits, with no leading zero except for 0 itself |
| `Session.DecimalRoundTrip` | script.js:118 | the timestamp text reads back as the timestamp |
| `Session.ExtensionOfUndottedName` | script.js:117 | a file name without `.` is its own extension |
| `Session.ExtensionAfterLastDot` | script.js:117 | otherwise the extension is the text after the last `.` |
| `Session.DownloadName` | script.js:118 | the definition `resized-<now>.<ext>`: the name starts with `resized-` followed by a digit. `DownloadNameKeepsExtension` characterises its extension |
| `Session.Display` | script.js:113-119 | what `displayResult` shows. The download name's extension is the original file's, whatever the result's format |
| `Session.OutcomeOf` | script.js:133-134 | a resize's result reaches `displayResult` together with the dimensions its caller passes (also lines 150-151). The page shows a result exactly when the resize succeeded, and shows its `dataUrl`, `blob` and those dimensions. A failure is shown as `EncodeFailed` with the resize's own error, never as `InvalidDimensions` |
| `Session.DownloadNameKeepsExtension` | script.js:117-118 | the extension of `resized-<now>.<ext>` is the original name's extension |
| `Session.Resizer.constructor` | script.js:17 | the session starts without a file |
| `Session.Resizer.HandleFile` | script.js:43-48 | a file is accepted exactly when its type starts with `image/`. An accepted file becomes `originalImageFile`; a rejected one leaves `originalImageFile` unchanged |
| `Session.Resizer.ResizeByDimensions` | script.js:123-137 | invalid dimensions encode nothing and give `InvalidDimensions`. Valid ones make exactly one encode at those dimensions, in the original file's type and without a quality, and show its result with those dimensions and the download name |
| `Session.Resizer.ResizeToTarget` | script.js:140-155 | every encode is at the image's own width and height, and the shown dimensions are those. The download name takes the original extension even when the search encodes JPEG. A truthy target stops where the search does: every encode before the last was over the target, a displayed result is over the target only after 17 encodes (0.1), and there are `SettleIndex + 1` encodes. A target that parses to NaN or 0 falls back to one encode in the original type |

## Left out

- DOM wiring is not modelled: element lookups, click and drag-and-drop handlers, showing and hiding areas, `alert`, and the `toFixed` size text. The reset button is left out too; it clears `originalImageFile` and the file input, shows the upload area again and hides the controls.
- `FileReader` and `Image` loading are foreign asynchronous APIs and are not modelled. So is the `originalWidth`/`originalHeight` bookkeeping. It fills the info text and pre-fills the width and height inputs (script.js:54-58). The dimension handler takes the parsed inputs as parameters instead. The target-size handler takes the loaded image's dimensions as parameters.
- The canvas (`drawImage`, `toDataURL`) and `atob` are foreign. They enter as uninterpreted functions, and base64 decoding is not re-verified.
- The `Blob` constructor's normalisation of its `type` option (lower-casing, clearing non-ASCII types) is not modelled, because only `blob.size` is used.
- `requestAnimationFrame` and the `Promise` are modelled as a plain loop.
  - The first call of `findBestQuality` runs synchronously inside the promise executor. So a conversion error on the first or second encode rejects the promise. An error on the third or a later encode is thrown inside an animation-frame callback and leaves the promise pending. All are modelled as `Failure`.
  - Interleaving with other handlers while a resize is in flight is not modelled.
- Resize.FindBestQuality: does not model floating-point quality arithmetic. The quality is in integer hundredths, and no claim is made about the exact doubles that `quality -= 0.05` passes to the encoder.
- The size test `size / 1024 <= targetSizeKB` is modelled as `size <= targetSizeKB * 1024` over integers. This is exact because the target comes from `parseInt`.
- The clock reading `Date.now()` is taken as non-negative (`now: nat`). A clock set before 1970 would make script.js:118 write `resized--<n>.<ext>`, which the model does not cover.
- `parseInt` is not modelled: the handlers take its result, an integer or NaN. JavaScript numbers are unbounded integers here, so an input that parses to `Infinity` is not modelled.
- The unused `aspectRatio` (script.js:145) is dead code and is not modelled.
