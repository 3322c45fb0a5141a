# Meter serial reader — a Dafny model of its selection rules

The repository reads the serial number of a utility meter from a photograph.
Two programs do this, each with its own rules:

- `api.py`, the upload endpoint. `process_image_logic` makes three renderings
  of the picture: grayscale, grayscale auto-contrasted, and grayscale with its
  contrast raised 2.5 times. It tries each at the angles 0, -90, 90 and 180
  degrees, in that order, and reads barcodes in each attempt. It looks only at
  the first symbol of an attempt. The first such symbol with at least four
  characters is returned with method `"Barcode Scan"` and status `"Success"`.
  If none qualifies, it returns the fixed record `Not Found / Failed / Failed`.
  An exception becomes an `Error` record that carries the exception's message.
- `app.py`, the dashboard. It takes a list of links, one per line. For each
  link it fetches the image and reads barcodes. If any symbol decodes, the
  first one is reported with `" (Scan)"` appended. Otherwise OCR runs, and each
  text fragment is reduced to its digits. The first reduced fragment that
  starts with `68` and has 8 to 11 digits is reported with `" (OCR)"` appended.
  Every link gives exactly one table row. A link with nothing readable gives
  `อ่านไม่ได้` / `-`. A link whose processing raised gives
  `Error` / `โหลดภาพไม่ได้`.

The model has four modules:

- `Outcomes` (outcomes.dfy): `Option`, and `Step`, which stands for the result
  of a foreign call: a value, or the exception it raised.
- `Text` (text.dfy): Python's `str.strip()`, `split('\n')` and the digit
  filter `"".join(filter(str.isdigit, text))`.
- `Api` (api.dfy): the variant × angle barcode search. `ScanOutcome` is the
  specification function and `ProcessImage` is the nested loop with early
  return, proved equal to it.
- `App` (app.dfy): link parsing, the barcode-then-OCR rule for one link
  (`RowFor` as a function, `ReadUrl` as the method with the OCR loop and its
  `break`), and the batch loop that appends one row per link.

Foreign code is passed in as parameters. The barcode reader of `api.py` is a
function from an image token to `Step<seq<string>>`. An image token is a
rendering, or a rendering rotated by an angle. The network, image opening,
barcode reader and OCR engine of `app.py` come in as one `Capture` per link.
This is a function of the link's position and text.

## Model

| member | source | states |
|---|---|---|
| `Api.SearchOrderAt` | api.py:27-36 | There are 12 attempts. Attempt `4*i + j` is rendering `i` (gray, autocontrast, contrast 2.5) at angle `j` (0, -90, 90, 180), so the order is lexicographic. At angle 0 the reader gets the unrotated rendering, and at every other angle it gets a rotated one. |
| `Api.FirstHit` | api.py:38-41 | A payload the search returns has at least 4 characters. |
| `Api.FirstToEndDecides` | api.py:34-41 | Take the first attempt in search order that qualifies (its first symbol has ≥ 4 characters) or raises. That attempt decides the result: its first symbol, or its exception. |
| `Api.FirstHitIsFirstToEnd` | api.py:34-48 | Conversely, a returned payload or exception comes from the earliest attempt that qualifies or raises. No earlier (rendering, angle) pair qualifies. |
| `Api.ExhaustedIffNothingEnds` | api.py:34-45 | The search gives up exactly when no attempt qualifies and none raises. |
| `Api.OnlyFirstSymbolMatters` | api.py:38-40 | Two readers that agree on every attempt's first symbol (and on exceptions) give the same outcome. Later symbols of an attempt never count. |
| `Api.ShortFirstSymbolMasksLongOne` | api.py:38-45 | A reader that always finds `"AB"` first and a 10-character serial second gets the Not-Found record. |
| `Api.SomeQualifyingPairSucceeds` | api.py:34-41 | When some (rendering, angle) pair qualifies and no attempt raises, the result is a success, whatever the photo's orientation. |
| `Api.ScanOutcome` | api.py:21-48 | The status is Success, Failed or Error. Success has a serial of ≥ 4 characters and method `"Barcode Scan"`. Failed is exactly `{Not Found, Failed, Failed}`. Error has serial `"Error"`. |
| `Api.ProcessImage` | api.py:21-48 | The nested loops return `ScanOutcome(upload)`. The images decoded are a prefix of the search order, so at most 12. All 12 are decoded when nothing is found. On success the last image decoded is the qualifying one, and its first symbol is the serial. A corrupt upload decodes nothing. |
| `Text.Strip` | app.py:25 | `strip()` returns the slice of the line between its leading and trailing whitespace. Neither end of the result is whitespace, and all that is cut away is whitespace. The result is empty exactly when the line is all whitespace. |
| `Text.SplitLines` | app.py:25 | `split('\n')` gives at least one piece, and no piece contains a newline. |
| `Text.JoinSplitLines` | app.py:25 | Joining the pieces with newlines gives back the input. |
| `Text.SplitJoinLines` | app.py:25 | Newline-free pieces survive a join followed by a split. |
| `Text.Digits` | app.py:48 | The cleaned fragment holds only digits and is no longer than the fragment. |
| `Text.DigitsAppend` | app.py:48 | Cleaning distributes over concatenation. With its value on single characters, this makes it the in-order subsequence of the digits. |
| `Text.DigitsKeepsEveryDigit` | app.py:48 | Every digit of the fragment is kept as often as it occurs, and nothing else is kept. |
| `Text.DigitsOfDigits` | app.py:48 | A string of digits is its own cleaning. |
| `App.ParseUrls` | app.py:25 | No link is empty, and no link starts or ends with whitespace. |
| `App.UrlsAreStrippedLines` | app.py:25 | Link `k` is the stripped form of line `from[k]` of the input. The `from` positions increase, so the original order is kept. Every line that gives no link is all whitespace. |
| `App.BlankInputHasNoUrls` | app.py:24-25 | The text area strips to nothing (the warning branch) exactly when it holds no link. |
| `App.FirstMeterSerial` | app.py:47-53 | An accepted OCR serial is all digits, starts with `68` and has 8 to 11 characters. |
| `App.FirstSerialWins` | app.py:47-53 | Suppose fragment `k` is the first whose digits qualify. Then its digits are the serial, and later fragments are not examined. |
| `App.FoundSerialIsFirst` | app.py:47-53 | Conversely, an accepted serial is the digits of the first qualifying fragment. |
| `App.NoSerialIffNoneQualifies` | app.py:47-53 | OCR yields nothing exactly when no fragment's digits qualify. |
| `App.RowFor` | app.py:56-63 | Row `idx` carries position `idx + 1` and its own link, in every branch. |
| `App.ReadUrl` | app.py:30-63 | The per-link body gives `RowFor`. OCR is asked exactly when the link was fetched and the barcode reader returned no symbols. |
| `App.ProcessUrls` | app.py:29-63 | Exactly one row per link, in order. Row `k` depends only on link `k` and on what happened to it, so an error on one link does not affect the others. |
| `App.StartButton` | app.py:23-27 | A blank text area gives the warning and no table. Otherwise the table has one row per parsed link, and at least one. |
| `App.BarcodeWins` | app.py:38-46 | When a symbol decodes, the row is `decoded[0] + " (Scan)"` with method `Barcode`, whatever OCR would have given or raised. |
| `App.OcrRowShape` | app.py:48-52 | An OCR row's serial is the digits of the first qualifying fragment followed by `" (OCR)"`. Those digits start with `68`, and there are 8 to 11 of them. |
| `App.RowOutcomes` | app.py:56-63 | The method is one of `Barcode`, `OCR (Serial)`, `-`, `โหลดภาพไม่ได้`. The serial is `Error` exactly when something raised. The row is a barcode row exactly when a symbol decoded. The method is `-` exactly when nothing was found, and then the serial is `อ่านไม่ได้`. |

## Left out

- Pixel operations: `Image.open`, `convert('L')`, `autocontrast`, the 2.5
  contrast enhancement and `rotate(expand=True)`. A rendering is a token named
  after the transform that made it. An exception while opening the upload or
  building any rendering (grayscale, autocontrast, contrast 2.5) is the
  `Corrupt` upload.
- `pyzbar.decode` and `easyocr.Reader.readtext` are foreign recognisers, and
  they are inputs here. Only the first symbol's payload is decoded from UTF-8
  (`decoded[0].data.decode('utf-8')`), and that step is folded into the reader:
  a first payload that is not valid UTF-8 is that attempt (in `api.py`) or
  that link's reader (in `app.py`) raising. Later payloads are never decoded.
- The OCR result's `bbox` and `prob` are unused by the selection and are
  dropped.
- `requests.get` with its timeout, `BytesIO`, and the FastAPI `UploadFile`
  endpoint `analyze_image` with its CORS setup are I/O plumbing. A failed
  fetch or open is the `Unreachable` capture.
- The Streamlit page is UI and is left out: widgets, the cached OCR reader,
  the progress bar (its fraction is a float), the pandas table and the CSV
  download.
- Text.IsDigit: accepts only `0`–`9`. Python's `str.isdigit` also accepts
  other Unicode digits, such as Thai or superscript digits. An English-only
  reader emits Latin text.
- Exceptions that no foreign call raises (running out of memory, for one) are
  not modelled. The model's own operations cannot fail.
