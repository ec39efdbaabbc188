# File-upload intake, modelled in Dafny

The application is a single-page Flask app. It accepts one uploaded file per POST
and writes the file into a fixed upload folder. This project models the two parts
of `app.py` that carry logic:

- **Filename validation** (`Filenames`, `filenames.dfy`). This is the fixed
  allow-list `AllowedExtensions` (txt, pdf, png, jpg, jpeg, gif, csv, xlsx, doc,
  docx) and the predicate `AllowedFile`. A name passes when it contains a dot and
  the text after its last dot, lower-cased, is in the list. Python's
  `rsplit('.', 1)` is modelled as `RSplitOnce`, whose contract gives the unique
  decomposition at the last dot. `str.lower` is modelled as ASCII lower-casing
  (`Lower`).
- **The upload handler** (`Upload`, `upload.dfy`). `Decide` is the pure
  decision for one request. It makes three checks in order: the `file` field is
  present, the raw filename is non-empty, and the raw filename passes
  `AllowedFile`. The outcome is either an error flash alone, or one write of the
  uploaded bytes to `join(UploadFolder, sanitise(raw))` plus a success flash
  that names the sanitised name. `Apply` applies an outcome to the store.
  `UploadApp` is the running application. Its fields are the upload folder's
  contents (a map from path to bytes) and the session's flashed messages.
  `UploadApp.UploadFile` is the handler written as early-return branches. Its
  postcondition ties the new store and flash list to `Decide` and `Apply`.

The filename sanitiser and the path join come from libraries whose code is not
part of this model. They are parameters of the `UploadApp` constructor and of
`Decide`, and nothing is assumed about them.

Two behaviours of the code are easy to miss, and the model keeps both:

- The code never looks at the uploaded bytes, so an empty upload with an allowed
  name is saved (`EmptyContentSaved`). It is not rejected as "no file selected".
- This app has no destination-format check and no handling of storage errors.
  `file.save` is taken as a write that always succeeds.

## Model

| member | source | states |
|---|---|---|
| `Filenames.AllowedFile` | app.py:20-21 | both directions: a name is allowed exactly when it has a last dot whose suffix, lower-cased, is one of the listed extensions (a reference definition by position, without splitting) |
| `Filenames.SuffixByLastDot` | app.py:21 | both directions: the dot test plus the lower-cased second part of `rsplit('.', 1)` being listed is the same as the suffix after the name's last dot being listed |
| `Filenames.LowerChar` | app.py:21 | one character of `.lower()` on ASCII: an upper-case letter becomes its lower-case partner, every other character is kept, and no upper-case letter remains |
| `Filenames.Lower` | app.py:21 | `.lower()` on ASCII: same length, each character lower-cased by `LowerChar`, and no upper-case ASCII letter is left in the result |
| `Filenames.RSplitOnce` | app.py:21 | `rsplit('.', 1)` gives one part (the name itself) exactly when there is no dot; otherwise it gives two parts, `before` and `after`, with `name == before + "." + after` and no dot in `after` |
| `Filenames.LastDotAfterPrefix` | app.py:21 | in `a + "." + b` with no dot in `b`, the dot after `a` is the last dot of the name |
| `Filenames.SplitAtLastDot` | app.py:21 | a name has only one split at its last dot, and `rsplit` returns exactly that split: `RSplitOnce(p + "." + e) == [p, e]` whenever `e` has no dot |
| `Filenames.SplitIsAtLastDot` | app.py:21 | for a name with a dot, the split `rsplit` makes sits at the name's last dot, and the second part is everything after it |
| `Filenames.LastDotIsSplit` | app.py:21 | conversely, cutting a name at its last dot gives exactly the two parts `rsplit` returns |
| `Filenames.LowerAppend` | app.py:21 | lower-casing distributes over concatenation |
| `Filenames.LowerKeepsDots` | app.py:21 | lower-casing neither adds nor removes dots |
| `Filenames.LowerIdempotent` | app.py:21 | lower-casing a lower-cased string changes nothing |
| `Filenames.NoDotRejected` | app.py:21 | a name without a dot is never allowed |
| `Filenames.OnlyLastSuffixTested` | app.py:21 | for any prefix `p` and dot-free `e`, `p.e` is allowed exactly when `e`, lower-cased, is a listed extension; the prefix plays no part |
| `Filenames.TrailingDotRejected` | app.py:21 | a name ending in a dot has an empty extension and is rejected |
| `Filenames.DotPrefixedName` | app.py:21 | `"." + e` is judged by `e` alone; the empty part before the dot is ignored |
| `Filenames.TenExtensions` | app.py:15 | the allow-list holds ten distinct extensions |
| `Filenames.ListedExtensionsAreLowerCase` | app.py:15 | every listed extension is non-empty, dot-free and already lower-case, so each one can be matched by some name |
| `Filenames.ListedExtensionAccepted` | app.py:15-21 | any name ending in a dot and a listed extension is accepted |
| `Filenames.AllowedFileOfLower` | app.py:21 | lower-casing the whole name first does not change the verdict |
| `Filenames.CaseInsensitive` | app.py:21 | two names that are equal up to ASCII case get the same verdict |
| `Filenames.ExeNotListed` | app.py:15 | `exe` is not one of the listed extensions |
| `Filenames.LastSuffixAccepted` | app.py:21 | `"a.exe.pdf"` is accepted: only the last suffix counts |
| `Filenames.LastSuffixRejected` | app.py:21 | `"a.pdf.exe"` is rejected: an allowed inner suffix does not help |
| `Filenames.UpperCaseJpgAccepted` | app.py:21 | `"Photo.JPG"` is accepted |
| `Filenames.UpperCasePdfAccepted` | app.py:21 | `"r.PDF"` is accepted |
| `Filenames.DotPdfAccepted` | app.py:21 | `".pdf"` is accepted, because the empty part before the dot is ignored |
| `Filenames.NoExtensionRejected` | app.py:21 | `"report."` (empty last suffix) and `"README"` (no dot) are rejected |
| `Upload.Decide` | app.py:162-182 | a request is saved exactly when the file field is present, the raw name is non-empty and the raw name is allowed; a saved request writes its bytes to the joined sanitised name and flashes a success naming the sanitised name; otherwise the one flash is an error, "No file selected" exactly for a missing field or empty name, "Invalid file type" exactly for the rest |
| `Upload.SuccessMessage` | app.py:178 | the success flash starts with `File "` followed by the saved name, so the name can be read back from it, and it differs from both error messages |
| `Upload.Apply` | app.py:177 | applying a rejection leaves the store unchanged; applying a save makes the target hold the uploaded bytes (adding it or overwriting it) and leaves every other entry unchanged |
| `Upload.MissingFileRejected` | app.py:164-172 | no file field, or an empty filename, gives the error "No file selected" and leaves the store unchanged |
| `Upload.DisallowedTypeRejected` | app.py:174-182 | a non-empty raw name that fails the allow-list gives the error "Invalid file type" and leaves the store unchanged |
| `Upload.AcceptedWritesOnce` | app.py:174-178 | an allowed raw name adds or overwrites exactly one entry, at `join(UploadFolder, sanitise(raw))`, which then holds the uploaded bytes; every other entry is unchanged |
| `Upload.LastWriteWins` | app.py:176-177 | any two saved uploads with the same target, whatever their raw names, leave the store as if only the second had happened |
| `Upload.SameSanitisedNameCollides` | app.py:174-176 | two allowed uploads whose raw names sanitise to the same name (such as `a b.pdf` and `a_b.pdf`) are both saved, to the same target |
| `Upload.DecisionIgnoresSanitiser` | app.py:174-176 | whether a request is saved, and any rejection it gets, never depends on the sanitiser or the join |
| `Upload.ValidatedBeforeSanitising` | app.py:174-176 | validation applies to the raw name: a sanitiser that turns `report.pdf` into the dot-less `report_pdf` still gets the file saved, under a name the allow-list would reject |
| `Upload.ReportNameAllowed` | app.py:21 | the raw name `report.pdf` passes the allow-list |
| `Upload.DotlessReportRejected` | app.py:21 | the dot-less name `report_pdf` fails the allow-list |
| `Upload.NotesNameAllowed` | app.py:21 | the name `notes.txt` passes the allow-list |
| `Upload.EmptyContentSaved` | app.py:168-177 | the bytes are never inspected: an empty upload named `notes.txt` is saved with empty content |
| `Upload.UploadApp.UploadFile` | app.py:162-182 | the new store is the old store with the decided outcome applied (at most one write), and exactly one flash, the decided one, is appended to the session's messages |

## Left out

- Flask routing, `redirect`/`url_for`, the HTML template and the page rendering
  (app.py:23-160) are presentation and framework plumbing.
- The pandas chart data (app.py:25-26) is a library-backed display.
- Creating the upload folder (app.py:18) and listing its files (app.py:29-31) are
  filesystem I/O, and the listing order depends on the platform.
- `secure_filename` (app.py:5, 175) and `os.path.join` (app.py:176) are library
  code that is not part of this model. They are uninterpreted function
  parameters, so no property of them (idempotence, stripping separators) is
  stated or used.
- `file.save` (app.py:177) is modelled as an update of the store map that
  always succeeds. Partial writes, permission errors and other I/O failures are
  not modelled.
- Filenames.Lower: lower-cases ASCII letters only, while Python's `str.lower`
  applies the full Unicode case mapping. The verdict of `AllowedFile` still
  agrees with the source on every name. Under that mapping only U+212A (Kelvin
  sign, which becomes `k`) and U+0130 (which becomes `i` followed by U+0307)
  lower-case to ASCII at all. No listed extension contains `k`, and U+0307 is
  not ASCII, so no non-ASCII suffix can lower-case into a listed extension.
- The `file` truth test at app.py:174 is not modelled separately. A werkzeug
  upload object is truthy exactly when its filename is non-empty, and the
  empty-name case has already returned at app.py:170.
- Request parsing is abstracted. A request is either missing the `file` field
  or carries a filename string and the bytes. The MIME type and other form
  fields are not read by the handler.
- Logging setup, the secret key and starting the server (app.py:7-11, 184-185)
  are configuration and process startup.
