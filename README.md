# Prescription reader — a verified model of the text pipeline and the upload guard

The prescription reader takes a photographed prescription and returns its text:
1. It checks that the file exists.
2. An image library reads it, turns it to grayscale, denoises it, applies Otsu thresholding and dilates it.
3. An OCR engine reads the result.
4. The raw OCR output is cleaned up:
   - split into lines;
   - every line stripped of surrounding whitespace;
   - blank lines dropped;
   - the rest joined back with newlines.

When cleanup leaves nothing, the fixed message "No text could be extracted from the image" takes the place of the text. `process_prescription` turns any failure on the way into `None`.

A small web front end accepts an uploaded image. It checks three things in order:
- that an `image` field is present;
- that its file name is non-empty;
- that the lower-cased name ends in `png`, `jpg` or `jpeg`.

It then stores the upload under the fixed path `static/uploaded_prescription.jpg`, runs the same preprocessing and OCR, and shows either the text or an error.

The model is pure Dafny, in four modules:

- `Outcomes` (outcomes.dfy): `Option` and `Result`, and the conversion from one to the other that `process_prescription`'s `except Exception as e:` ... `return None` performs.
- `PythonStrings` (python_strings.dfy): the Python string built-ins the code relies on. These are `str.isspace` (the full Unicode whitespace set), `strip`, `split`, `join`, `lower` and `endswith` with a tuple.
- `PrescriptionDetection` (prescription_detection.dfy):
  - the cleanup;
  - the sentinel;
  - preprocessing, extraction and the whole pipeline, with the image library and the OCR engine as function-typed parameters that either give a value or fail.
- `App` (app.py's `upload_image`): the guard chain, the flashed messages, the fixed save path and the route's answer.

The source's own functions are pure apart from logging and foreign calls, so the model uses functions and lemmas throughout and has no classes or loops.

Failures are not told apart by the caller:
- `process_prescription` catches every `Exception` and returns `None` (prescription_detection.py:92-94);
- `upload_image` catches every `Exception` and flashes its text (app.py:55-58).

In the model, a `Fault` value names the stage that failed inside `RunPipeline`, `PreprocessAndExtract` and `UploadImage`, and `ProcessPrescription` collapses every fault to `None`.

## Model

| member | source | states |
|---|---|---|
| Outcomes.Result.ToOption | prescription_detection.py:83-94 | the option is present exactly when the run succeeded, and it then holds the run's value |
| PythonStrings.IsSpace | prescription_detection.py:74 | `str.isspace()` on one character: among ASCII characters exactly space, tab, newline, vertical tab, form feed, carriage return and the four information separators; no whitespace lies above U+3000 |
| PythonStrings.TrailingSpaces | prescription_detection.py:74 | the count never exceeds the length; the counted characters at the end are all whitespace; the character before them is not |
| PythonStrings.StripRight | prescription_detection.py:74 | `rstrip` gives a prefix of the input that does not end in whitespace, and everything after it is whitespace |
| PythonStrings.Strip | prescription_detection.py:74 | `strip()` leaves no whitespace at either end, and gives the empty string exactly when the input is all whitespace |
| PythonStrings.StripIsCore | prescription_detection.py:74 | `strip()` returns a contiguous slice of the input with only whitespace before and after it |
| PythonStrings.CoreAtLeadingSpace | prescription_detection.py:74 | such a slice of `s[1..]` is also one of `s` when `s` starts with whitespace |
| PythonStrings.CoreAtStripRight | prescription_detection.py:74 | the `rstrip` result is such a slice starting at position 0 |
| PythonStrings.StripKeepsCharacters | prescription_detection.py:74 | every character of the stripped line occurs in the original line |
| PythonStrings.StripLeftAt | prescription_detection.py:74 | after a whitespace prefix that ends at a non-space, `strip()` is the `rstrip` of the rest |
| PythonStrings.StripRightAt | prescription_detection.py:74 | before a whitespace suffix that follows a non-space, `rstrip` is the prefix up to it |
| PythonStrings.StripCharacterized | prescription_detection.py:74 | uniqueness: any slice with only whitespace around it and none at its own ends is the `strip()` result |
| PythonStrings.StripNonEmptyCore | prescription_detection.py:74 | a non-empty slice with only whitespace around it and none at its own ends is the `strip()` result |
| PythonStrings.StripTrimmed | prescription_detection.py:74 | `strip()` leaves a string that has no outer whitespace unchanged |
| PythonStrings.Join | prescription_detection.py:77 | joining a single piece gives that piece |
| PythonStrings.JoinCons | prescription_detection.py:77 | a character in front of the first piece lands in front of the joined string |
| PythonStrings.Split | prescription_detection.py:71 | `split(sep)` gives at least one piece; no piece contains the separator; joining the pieces with the separator gives back the input |
| PythonStrings.SplitJoin | prescription_detection.py:71-77 | splitting a join of separator-free pieces gives back exactly those pieces |
| PythonStrings.SplitNoSeparator | prescription_detection.py:71 | a string without the separator splits into itself alone |
| PythonStrings.SplitPiecesFromInput | prescription_detection.py:71 | every character of a piece occurs in the split string |
| PythonStrings.LowerChar | app.py:35 | one character lower-cased: never an ASCII capital; a capital becomes the matching small letter; any other character is kept |
| PythonStrings.Lower | app.py:35 | `lower()` keeps the length, leaves no ASCII capital, turns each capital into its small letter and keeps every other character |
| PythonStrings.LowerWithoutCapitals | app.py:35 | a name without ASCII capitals is unchanged by `lower()` |
| PythonStrings.LowerIdempotent | app.py:35 | lower-casing twice is lower-casing once |
| PythonStrings.EndsWith | app.py:35 | `endswith(suffix)` holds exactly when the suffix is no longer than the string and matches its last characters one by one |
| PythonStrings.EndsWithAny | app.py:35 | `endswith(tuple)` holds exactly when one of the suffixes ends the string |
| PrescriptionDetection.CleanLines | prescription_detection.py:74 | the kept lines are no more than the input lines, and none of them is empty |
| PrescriptionDetection.CleanLinesTrimmed | prescription_detection.py:74 | no kept line has whitespace at either end |
| PrescriptionDetection.CleanLinesNoNewline | prescription_detection.py:71-74 | stripping cannot bring a newline into a line that had none |
| PrescriptionDetection.JoinCleanLinesShorter | prescription_detection.py:71-77 | the joined cleaned lines are never longer than the joined input lines |
| PrescriptionDetection.JoinedLinesAreExtractedText | prescription_detection.py:77 | non-empty trimmed lines without newlines, once joined, split back into the same lines and form well-formed cleaned text |
| PrescriptionDetection.CleanLinesOfCleanLines | prescription_detection.py:74 | lines that are already non-empty and trimmed pass through unchanged |
| PrescriptionDetection.CleanExtractedText | prescription_detection.py:65-79 | empty input gives empty output; the output is never longer than the input; the output is empty or consists of non-empty lines with no outer whitespace |
| PrescriptionDetection.CleanFixedPoint | prescription_detection.py:65-79 | cleanup leaves a text unchanged exactly when that text is well-formed cleaned text |
| PrescriptionDetection.CleanIdempotent | prescription_detection.py:65-79 | cleaning cleaned text changes nothing |
| PrescriptionDetection.StripEach | prescription_detection.py:74 | one stripped line for each input line, position by position |
| PrescriptionDetection.CleanLinesIsNonEmptyOfStripped | prescription_detection.py:74 | the comprehension is "strip every line, then drop the empty results" |
| PrescriptionDetection.Shift | prescription_detection.py:74 | every index moved up by one, with the length kept |
| PrescriptionDetection.StepTakenFrom | prescription_detection.py:74 | one step of the selection: the kept lines are taken from the input at the given indices |
| PrescriptionDetection.ShiftIncreasing | prescription_detection.py:74 | moving increasing non-negative indices up by one keeps them increasing and makes them positive |
| PrescriptionDetection.StepIncreasing | prescription_detection.py:74 | one step of the selection: the indices stay strictly increasing |
| PrescriptionDetection.StepNonEmptyTaken | prescription_detection.py:74 | one step of the selection: every non-empty input line has a place in the output |
| PrescriptionDetection.NonEmptySelect | prescription_detection.py:74 | dropping empty lines is an order-keeping selection that misses no non-empty line |
| PrescriptionDetection.CleanLinesSelect | prescription_detection.py:74 | each kept line is the stripped form of an input line; the choice keeps order; every line that is non-blank after stripping is kept |
| PrescriptionDetection.CleanKeepsNonBlankLinesInOrder | prescription_detection.py:65-79 | the lines of the cleaned text are exactly the stripped non-blank input lines, in their original order |
| PrescriptionDetection.JoinLength | prescription_detection.py:77 | a join is at least as long as its first piece |
| PrescriptionDetection.JoinAllSpace | prescription_detection.py:77 | whitespace pieces joined by a whitespace separator give whitespace |
| PrescriptionDetection.CleanLinesEmpty | prescription_detection.py:74 | nothing is kept exactly when every line is whitespace only |
| PrescriptionDetection.CleanWhitespaceOnly | prescription_detection.py:65-79 | cleanup gives the empty string exactly when the OCR text is empty or whitespace only |
| PrescriptionDetection.JoinShape | prescription_detection.py:77 | joined non-empty trimmed lines start and end with a non-space, and every newline has a non-space on each side |
| PrescriptionDetection.CleanedTextShape | prescription_detection.py:65-79 | cleaned text has no whitespace at its ends and none on either side of a newline |
| PrescriptionDetection.StripExampleLine | prescription_detection.py:74 | `"  Line A  "` strips to `"Line A"` |
| PrescriptionDetection.SplitExample | prescription_detection.py:71 | a sample OCR text splits into its five lines, with the last one empty |
| PrescriptionDetection.CleanLinesExample | prescription_detection.py:74 | of those five lines only `"Line A"` and `"Line B"` remain |
| PrescriptionDetection.StripTabbedLine | prescription_detection.py:74 | a leading tab is stripped |
| PrescriptionDetection.StripBlankLine | prescription_detection.py:74 | a line of spaces strips to nothing |
| PrescriptionDetection.JoinExample | prescription_detection.py:77 | two lines join with one newline between them |
| PrescriptionDetection.CleanExample | prescription_detection.py:65-79 | `"  Line A  \n\n\tLine B\n   \n"` cleans to `"Line A\nLine B"` |
| PrescriptionDetection.CleanBlankExample | prescription_detection.py:65-79 | a text of blank lines cleans to the empty string |
| PrescriptionDetection.PreprocessImage | prescription_detection.py:12-41 | an unreadable file fails as unreadable; otherwise the result succeeds exactly when the image operations do, and is their output |
| PrescriptionDetection.ExtractTextFromImage | prescription_detection.py:43-63 | fails exactly when the OCR engine fails; a result is never empty, is well-formed cleaned text and is unchanged by cleanup; whitespace-only OCR output gives the sentinel, anything else gives its cleanup |
| PrescriptionDetection.SentinelIsExtractedText | prescription_detection.py:59 | the sentinel message is itself well-formed cleaned text that cleanup leaves alone |
| PrescriptionDetection.SingleLine | prescription_detection.py:65-79 | a non-empty single line without outer whitespace is well-formed and unchanged by cleanup |
| PrescriptionDetection.PreprocessAndExtract | prescription_detection.py:87-88 | a preprocessing failure passes through with its fault; otherwise the result is extraction on the preprocessed image; a success is non-empty cleaned text, and a failure is an unreadable image, a preprocessing failure or an OCR failure |
| PrescriptionDetection.RunPipeline | prescription_detection.py:81-91 | a missing file fails first; then a preprocessing failure passes through; otherwise the result is extraction on the preprocessed image |
| PrescriptionDetection.ProcessPrescription | prescription_detection.py:81-94 | `None` for a missing file; a value exactly when the file exists and reading, preprocessing and OCR all succeed; that value is non-empty cleaned text, the extractor's output |
| App.ValidateUpload | app.py:24-37 | a missing `image` field, then an empty file name, then a name without an image suffix are rejected in that order; anything else is accepted |
| App.AllowedExtensionsAreImageSuffixes | app.py:34-35 | the tuple test on the allowed extensions holds exactly when the lower-cased name ends in "png", "jpg" or "jpeg" |
| App.ImageSuffixIsAllowed | app.py:34-35 | an image suffix passes the tuple test |
| App.AllowedIsImageSuffix | app.py:34-35 | passing the tuple test means having an image suffix |
| App.FlashMessage | app.py:25-36 | every rejection flashes a non-empty message |
| App.FlashMessagesDistinct | app.py:25-36 | different rejections flash different messages |
| App.PathJoin | app.py:40 | as `os.path.join` does on POSIX: an absolute second part replaces the first; otherwise the parts are joined with one `/` unless the first is empty or already ends in `/` |
| App.UploadPathIsFixed | app.py:40 | the upload is always stored at `static/uploaded_prescription.jpg` |
| App.UploadImage | app.py:22-58 | a rejection happens exactly when validation fails, and carries that reason; an error is never "file not found"; a failed save is reported as such, and after a successful save the error is the fault of the preprocessing or OCR stage that failed; the result page is shown exactly when validation, saving, preprocessing and OCR all succeed, at the fixed path, with the extractor's non-empty cleaned text |
| App.UploadIgnoresFileName | app.py:39-53 | two accepted uploads that differ only in their file name get the same answer, since the stored path is fixed |
| App.UploadAgreesWithProcessPrescription | app.py:40-53 | once the stored file exists, the route shows a page exactly when `process_prescription` on that path gives a value, and shows that value |
| App.ValidateCaseInsensitive | app.py:35 | a file name and its lower-cased form are judged alike |
| App.EndingInPngAccepted | app.py:35 | any name ending in "png" or "PNG" is accepted, dot or no dot |
| App.MissingFieldExample | app.py:24-26 | a request without the `image` field is rejected as "no file uploaded" |
| App.EmptyNameExample | app.py:29-31 | an empty file name is rejected as "no file selected" |
| App.NoDotExample | app.py:35 | "notapng" is accepted, since no dot is required |
| App.BareSuffixExample | app.py:35 | "xpng" is accepted |
| App.UpperCaseExample | app.py:35 | "Photo.JPEG" is accepted |
| App.RejectedTypeExamples | app.py:35-37 | "photo.gif" and "scan.png.exe" are rejected as invalid file types |

## Left out

- The image library: decoding, grayscale, denoising, Otsu thresholding and the 2x2 dilation (prescription_detection.py:16-37). These become the abstract `imread` and `normalize` parameters. Only success or failure and the identity of the result are modelled.
- The OCR engine and its configuration `--oem 3 --psm 6`, and the array-to-image conversion (prescription_detection.py:46-52). These become the abstract `ocr` parameter.
- Logging everywhere. It has no effect on results.
- Exception messages (`str(e)`) in the log and in the flash text "An error occurred: ...". A failure is a `Fault` value naming the stage.
- File system effects: `os.path.exists`, creating the `static` folder at import time (app.py:14-15), and writing the upload (`file.save`). These become the `fileExists` and `save` parameters. The model does not capture that an upload overwrites the previous file at the same path, or that concurrent requests share it.
- Flask routing, templates, the secret key, the `index` route and starting the server (app.py:10-19, 60-61). A response is reduced to which page is shown and its values.
- The command-line block of prescription_detection.py (lines 96-106). It only prints.
- PythonStrings.LowerChar: only ASCII `A`-`Z` are lower-cased. Every other character is kept as it is, non-ASCII capitals among them, which Python's `lower()` does not do. No non-ASCII character lower-cases to a letter of "png", "jpg" or "jpeg", so the extension decision is the same as Python's.
- PythonStrings.Lower: built from PythonStrings.LowerChar, so it has the same gap: non-ASCII capitals stay upper-case. The extension decision is unaffected.
- App.PathJoin: the POSIX rules only. The Windows separator and drive handling of `os.path.join` are not modelled, so the model gives the POSIX form of the stored path.
