# Urine colour classifier: a verified model

The application accepts a photo of a urine sample, either as an uploaded file or as a
camera capture posted as a base64 data URL. It stores the photo, averages its colour,
converts that mean colour to hue, saturation and value, and reports one of six verdicts
about the sample's hydration. This project models the three pure steps of that flow in
Dafny and proves what they promise:

- `UrineColor` (`urine_color.dfy`) is the decision table that turns the mean colour's
  `(h, s, v)` bytes into a verdict. The first matching rule wins and a final fallback
  catches everything else. The module holds the verdicts with their exact Thai texts,
  the classifier itself, and an independent reading of the same table as an ordered list
  of interval rules. It proves that the two agree, and that the table gives the same
  verdicts whatever order the four hue rules are tested in.
- `Upload` (`upload.dfy`) covers two steps of the camera branch. The first cuts the data
  URL at its first comma into a header and a payload; this fails when there is no comma.
  The second names the stored capture `capture_<YYYYMMDD>_<HHMMSS>.png` from the clock's
  date and time. It proves that splitting undoes joining, that the name has the stated
  layout, and that a parser reads every name back into the time it came from. That last
  fact means distinct date-time readings never share a filename.
- `Wrappers` (`wrappers.dfy`) holds the `Option` type used for the failing cases.

Behaviour of the code worth noting:

- The hue bands are strict on both ends (`40 < h < 70`, `20 < h < 40`, `10 < h < 20`,
  `h < 10`). The hues 10, 20 and 40 therefore belong to no band and are unclassifiable.
- Each colour verdict's text is a colour word followed by advice in parentheses, for
  example "ใส (อาจดื่มน้ำมาก)" for clear. The unclassifiable text has no advice.
- The colour analysis averages the whole image, resized to 200×200. No part of the
  image is cropped out first.
- Uploaded files keep the name the client sent. Only camera captures get a timestamped
  name, and no filename is sanitised.

`%Y` is modelled as glibc's `strftime` writes it: the year in decimal with no zero
padding. Some newer Python releases pad years below 1000 to four digits. The two agree
for every year from 1000 to 9999, which covers every year `datetime.now()` can return
in practice.

## Model

| member | source | states |
|---|---|---|
| UrineColor.Classify | app.py:22-33 | "clear" holds exactly when v > 220 and s < 30. "Pale yellow" holds exactly when the input is not clear, 40 < h < 70 and s > 100. Once clear is ruled out, dark yellow holds iff 20 < h < 40, orange iff 10 < h < 20 and brown iff h < 10. "Unclassifiable" holds iff h is 10, 20 or 40, or h ≥ 70, or 40 < h < 70 with s ≤ 100. So every byte triple gets exactly one of the six verdicts. |
| UrineColor.Text | app.py:23-33 | Each verdict's exact returned text: one string per `return` at lines 23, 25, 27, 29, 31 and 33. Every text is non-empty, and it ends in a closing parenthesis (the advice) exactly when the verdict is not "unclassifiable". |
| UrineColor.TextInjective | app.py:22-33 | The six verdict texts are pairwise distinct, so the returned string identifies the verdict. |
| UrineColor.ClearPrecedence | app.py:22-23 | v > 220 and s < 30 give "clear" whatever the hue. v = 220 or s = 30 never give "clear". |
| UrineColor.HueAloneDecides | app.py:26-31 | Once clear is ruled out, dark yellow, orange and brown depend only on h. Changing s and v, while the input stays non-clear, leaves them unchanged. |
| UrineColor.BoundaryHuesUnclassifiable | app.py:24-33 | A non-clear input with hue 10, 20 or 40, or any hue ≥ 70, is unclassifiable, because every hue comparison is strict. |
| UrineColor.ClassifyIsFirstMatch | app.py:22-33 | The if/elif chain gives the same verdict as the first matching rule of the interval-rule table, with "unclassifiable" when no rule matches. |
| UrineColor.HueRulesDisjoint | app.py:24-31 | No byte triple matches two of the pale-yellow, dark-yellow, orange and brown rules. |
| UrineColor.FirstMatchSingleRule | app.py:22-33 | In first-match evaluation, when every matching rule of the table is the same rule r, the result is r's verdict if r is in the table and matches, and "unclassifiable" otherwise. Where r stands in the table does not matter. |
| UrineColor.HueRuleOrderIrrelevant | app.py:24-31 | A table that keeps the "clear" rule first and holds the four hue rules in any order (any permutation of them) gives the classifier's verdict for every byte triple. So first-match order among the hue tests never changes the result. |
| Upload.FirstIndex | app.py:48 | The search for the separator finds nothing exactly when the character is absent. Otherwise it returns a position holding that character, with no occurrence before it. |
| Upload.SplitDataUrl | app.py:47-48 | `split(",", 1)` followed by unpacking into two names fails exactly when the string has no comma. Otherwise the header has no comma, and header + "," + payload is the input, so the payload is everything after the first comma, commas included. |
| Upload.SplitJoin | app.py:48 | Splitting a comma-free header joined by a comma to any payload gives back exactly that header and payload. |
| Upload.Decimal | app.py:50 | `%Y` writes a non-empty string of decimal digits. It is one digit long exactly below 10 and one digit longer than for n / 10 otherwise. |
| Upload.DecimalValue | app.py:50 | Reading the decimal form of n back as digits gives n. |
| Upload.FourDigitYear | app.py:50 | Years 1000 to 9999 are written with exactly four digits. |
| Upload.Pad2 | app.py:50 | `%m`, `%d`, `%H`, `%M` and `%S` write exactly two digits whose value is the field's value. |
| Upload.CaptureFilename | app.py:50 | The capture name is `capture_`, then `Upload.Stamp` (the `strftime('%Y%m%d_%H%M%S')` call), then `.png`. Between `capture_` and `.png` come the digits of the year, four digits of month and day, `_` and six digits of time. From year 1000 on the name is exactly 27 characters long. |
| Upload.ParseCaptureFilenameInverse | app.py:50 | Parsing a capture name recovers exactly the date and time it was made from. |
| Upload.CaptureFilenameInjective | app.py:50 | Distinct date-time readings give distinct capture names. |

## Left out

- Image decoding, resizing, averaging and the BGR-to-HSV conversion (app.py:14-20) are
  OpenCV and NumPy calls over floating-point averages. The model takes the resulting
  `h`, `s`, `v` bytes as inputs. It models them as bytes 0..255, although OpenCV's
  8-bit hue only reaches 179.
- A photo that cannot be decoded makes `cv2.resize` raise. The code has no handling for
  that case, so no decode-error path is modelled.
- Flask routing, templates, `request.files`, `request.form` and `send_from_directory`
  (app.py:35-47, 55-63) are web I/O. The missing-form-field error at app.py:47 is part of
  that.
- Writing files and creating the upload directory (app.py:9-11, 44-45, 51-53) are
  filesystem I/O. The client's filename is used unchanged, and there is no sanitising
  logic to model.
- `base64.b64decode` (app.py:49) is a library call.
- The clock read `datetime.now()` (app.py:50) is left out. Its date and time components
  are inputs to `Upload.CaptureFilename`.
- Upload.CaptureFilename: does not model the four-digit padding that some newer Python
  releases apply to years below 1000. The model follows glibc's unpadded `%Y`, and the
  two agree for years 1000 to 9999.
- The unused `b, g, r` unpacking (app.py:18) is left out.
- Overwriting stored files is not ruled out. Distinct date-time readings give distinct
  names, but three cases still overwrite a file:
  - Two captures within the same second get the same name. The later write at
    app.py:52-53 replaces the earlier file.
  - `datetime.now()` is local wall-clock time. When the clock falls back for daylight
    saving or is set back, captures at different real moments can read the same time
    and overwrite each other.
  - A file uploaded under a client-chosen name such as `capture_20250101_120000.png`
    (app.py:43-45) replaces a capture of that name.
