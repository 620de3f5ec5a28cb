# QR-code generator: the string logic of `app.py`

The application is a small Flask service with two routes.

- **`/generate`** receives a text, encodes it as a QR-code image and saves the image under `static/qr_codes`. The file is named after the first ten characters of the text, once the characters a file name cannot hold have been replaced by `_`. The route then renders the page with the image's static URL and its name.
- **`/download`** receives a download name and that URL. It cuts the stored name back out of the URL, joins it onto `static/qr_codes`, and sends the file as an attachment. The attachment's name gets `.png` appended unless it already ends with it.

This project models everything in those routes that is decided by strings:

- the filename sanitiser;
- the stored-name rule of the route and the path rule of the `generate_qr_code` helper;
- `os.path.join` on POSIX;
- the static URL handed to the page;
- the `split('/qr_codes/')[-1]` extraction;
- the download-name rule.

It proves how these fit together:

- which texts collide on a stored file;
- that the generated URL leads the download route back to the saved file, as long as `url_for` leaves the stored name unescaped;
- that this round trip fails when the static URL path ends in `/qr_codes`;
- that the extraction does not keep the download inside the folder.

Modules:

- `PyStrings` (`pystrings.dfy`) has the Python `str` operations the code uses: `startswith`, `endswith`, `s[:n]`, `in`, `find`, `join`, and `split` with `[-1]`. Strings are `seq<char>`, one element per Unicode scalar value. `split` is the left-to-right, non-overlapping scan Python performs.
- `PosixPath` (`posixpath.dfy`) has `os.path.join` as `posixpath` implements it:
  - components are added left to right;
  - a `/` is inserted unless the path so far is empty or already ends in `/`;
  - a component starting with `/` discards everything before it.
- `QrApp` (`qrapp.dfy`) has the constants, the sanitiser, the two name rules, both routes as functions from their form fields to their response, and the confined download route of the finding below.
- `QrAppProperties` (`qrapp_properties.dfy`) has the properties that relate the routes to each other.

The routes read form fields and the configuration. Everything they read is a parameter:

- `data` for `/generate`;
- `filename` and `qr_code_url` for `/download`;
- Flask's static URL path, `/static` by default.

`url_for('static', filename=f)` is modelled as the static URL path, `/` and `f`, with nothing percent-escaped. The real `url_for` percent-escapes characters such as spaces, `#`, `%` and anything outside ASCII. For a stored name holding one of those, the round-trip results do not hold in the application; "## Left out" gives the case.

Two behaviours of the code are modelled as written.

1. **`split` is not "the part after the last separator".** `qr_code_url.split('/qr_codes/')[-1]` is the piece after the last match of a left-to-right, non-overlapping scan. The separator overlaps itself in one `/`, so this can differ from the text after the rightmost occurrence. The model follows the code. As a consequence, the URL round trip holds only when the static URL path does not end in `/qr_codes`:
   - `RelativePathOfBuiltUrl` proves the round trip under that condition;
   - `StaticPathEndingInQrCodes` proves that with the static URL path `/qr_codes` the extracted piece keeps an extra `qr_codes/`.
2. **An absolute piece leaves the folder.** A piece that starts with `/` makes `os.path.join` return the piece itself. This is the finding below.

## Model

| member | source | states |
|---|---|---|
| `PyStrings.Take` | app.py:66 | `s[:n]` has length `min(n, len(s))` and is a prefix of `s` |
| `PyStrings.FirstOccurrence` | app.py:82 | the reported index is an occurrence, no occurrence lies before it, and there is none exactly when the separator does not occur |
| `PyStrings.Split` | app.py:82 | `split` yields at least one piece, and joining the pieces with the separator gives the string back |
| `PyStrings.SplitCutsAreLeftmost` | app.py:82 | every cut `split` makes is at the leftmost occurrence of the separator in the text that remains, and the last piece holds no separator |
| `PyStrings.SplitIsUnique` | app.py:82 | any list of pieces that joins back to the string and is cut at the leftmost occurrences is exactly `split`'s result, so the two lemmas above and the join round trip determine `split` |
| `PyStrings.SplitPiecesAreFree` | app.py:82 | no piece contains the separator, and there is more than one piece exactly when the separator occurs |
| `PyStrings.LastPieceOfSplit` | app.py:82 | `split(sep)[-1]` is the whole string when `sep` does not occur in it, and otherwise a suffix immediately preceded by `sep`; either way it does not contain `sep` |
| `PosixPath.Join` | app.py:83 | the joined path ends with the last component, and starts with the first one when no component is absolute |
| `PosixPath.AbsoluteComponentResets` | app.py:83 | everything before an absolute component has no effect on the result |
| `PosixPath.JoinRelative` | app.py:67 | a relative name joined onto a non-empty directory that does not end in `/` is the directory, `/` and the name |
| `PosixPath.JoinFile` | app.py:30 | a relative `stem + ext` joined onto a directory gets a `/` in between exactly when the directory is non-empty and does not end in `/` |
| `QrApp.SanitizeFilename` | app.py:16-19 | the length is kept, each of the nine forbidden characters (backslash, slash, colon, star, question mark, double quote, less-than, greater-than, vertical bar) becomes `_`, every other character is kept in place, and the result is clean |
| `QrApp.SanitizeIdempotent` | app.py:16-19 | sanitising twice is sanitising once |
| `QrApp.SanitizeLeavesCleanUnchanged` | app.py:16-19 | the sanitiser leaves a string unchanged exactly when it has no forbidden character |
| `QrApp.SanitizeTake` | app.py:66 | sanitising and then keeping ten characters is the same as keeping ten characters and then sanitising |
| `QrApp.QrCodeFilename` | app.py:66 | the stored name ends in `_qr_code.png`, its stem is a prefix of the sanitised text of length `min(10, len)`, and it is clean when the text is |
| `QrApp.QrCodeFilenameEqual` | app.py:66 | two stored names are equal exactly when the first ten sanitised characters are |
| `QrApp.HelperFilePath` | app.py:21-35 | `generate_qr_code` saves to the directory joined with the whole sanitised text and `.png`, with or without a `/` as the join decides |
| `QrApp.HelperFilePathEqual` | app.py:30 | the helper's paths collide exactly when the whole sanitised texts agree |
| `QrApp.GenerateRoute` | app.py:41-74 | empty text redirects; otherwise the stored name is the ten-character sanitised stem with `_qr_code.png`, it is clean, it is saved at `static/qr_codes/<name>`, and the page URL is the static path, `/qr_codes/` and the name |
| `QrApp.StoredNameIsRelative` | app.py:66-67 | a stored name never starts with `/`, so the join keeps it under the folder |
| `QrApp.QrFolderIsPlain` | app.py:9 | `static/qr_codes` is non-empty, does not end in `/`, and is `os.path.join('static', 'qr_codes')` |
| `QrApp.StaticUrl` | app.py:73 | `url_for('static', filename=f)` is taken as exactly the static URL path, `/` and `f` (its prefix, its suffix and its length), with no percent-escaping |
| `QrApp.DownloadName` | app.py:86-87 | the download name ends in `.png`; it is unchanged exactly when it already did, and otherwise `.png` is appended |
| `QrApp.DownloadNameIdempotent` | app.py:86-87 | normalising a download name twice is normalising it once |
| `QrApp.MycodeIsDownloadedAsMycodePng` | app.py:86-87 | `mycode` is sent as `mycode.png` |
| `QrApp.RelativePath` | app.py:82 | the extracted piece does not contain `/qr_codes/`; it is the whole URL when the separator does not occur, and otherwise the URL ends with the separator and the piece; it is the last piece of every decomposition of the URL cut at the leftmost occurrences, which fixes it uniquely |
| `QrApp.DownloadRoute` | app.py:76-90 | the download name ends in `.png` and is kept when it already did; the file is `static/qr_codes/<piece>` for a relative piece and the piece itself for an absolute one |
| `QrApp.ConfinedDownloadRoute` | app.py:82-83 | the corrected route answers exactly for plain-name pieces, answers as the original route, and then sends a file directly inside `static/qr_codes` |
| `QrAppProperties.StoredNameCollision` | app.py:66-67 | two texts share a stored name, and so a saved path, exactly when their sanitised forms agree on the first ten characters |
| `QrAppProperties.FirstTenCharactersDecide` | app.py:66 | texts with the same first ten characters get the same response, so when both saves happen the second overwrites the first |
| `QrAppProperties.ShortCleanTextKeepsItsName` | app.py:66-67 | clean text of at most ten characters is stored as itself with `_qr_code.png` |
| `QrAppProperties.OnlyForbiddenCharacters` | app.py:18 | text made only of forbidden characters gets a stem of `min(10, len)` underscores |
| `QrAppProperties.RelativePathOfBuiltUrl` | app.py:82 | extraction inverts URL construction: a name without the separator behind a front that does not end in `/qr_codes` is recovered whole |
| `QrAppProperties.GeneratedUrlRoundTrip` | app.py:73-82 | the URL the generate route hands out is cut back to the stored name |
| `QrAppProperties.DownloadSendsSavedFile` | app.py:67-83 | downloading with the handed-out URL sends the file that was saved, whatever download name is asked for |
| `QrAppProperties.StoredNameKeptOnDownload` | app.py:86-87 | the stored name, offered as the download name, is kept unchanged |
| `QrAppProperties.StaticPathEndingInQrCodes` | app.py:82 | with the static URL path `/qr_codes` the extracted piece is `qr_codes/` and the stored name, so the round trip needs its condition |
| `QrAppProperties.AbsolutePieceLeavesFolder` | app.py:82-83 | a URL built as a front not ending in `/qr_codes`, the separator, and an absolute piece without the separator makes the route send that absolute piece |
| `QrAppProperties.AbsoluteUrlWithoutSeparator` | app.py:82-83 | an absolute URL path without the separator is taken whole and sent as it stands |
| `QrAppProperties.EtcPasswdIsSent` | app.py:82-83 | the URL `/etc/passwd` makes the route send `/etc/passwd` |
| `QrAppProperties.SlashPieceEscapesFolder` | app.py:82-83 | the URL `/qr_codes//x` makes the route send `/x` |
| `QrAppProperties.ConfinedRefusesAbsolutePiece` | app.py:82-83 | the corrected route refuses every URL whose extracted piece is absolute, with or without the separator in it |
| `QrAppProperties.ConfinedDownloadSendsSavedFile` | app.py:73-83 | the corrected route still accepts every handed-out URL and sends the saved file |

## Findings

| source | as written | input that shows it | evidently intended | confidence | as-written member | corrected member |
|---|---|---|---|---|---|---|
| app.py:82-83 | the piece after `/qr_codes/` is joined onto `static`, `qr_codes` unchecked, and `os.path.join` drops both when the piece starts with `/` | `qr_code_url = "/etc/passwd"` sends `/etc/passwd`; `qr_code_url = "/qr_codes//x"` sends `/x` | the comment at the extraction line asks for a relative path only, that is, a file inside `static/qr_codes` | high; not executed | `QrAppProperties.EtcPasswdIsSent` and `QrAppProperties.SlashPieceEscapesFolder` (with `QrAppProperties.AbsoluteUrlWithoutSeparator` and `QrAppProperties.AbsolutePieceLeavesFolder` for the two general shapes) | `QrApp.ConfinedDownloadRoute` with `QrAppProperties.ConfinedRefusesAbsolutePiece` and `QrAppProperties.ConfinedDownloadSendsSavedFile` |

The corrected route accepts only a plain file name: not empty, not `.` or `..`, and without `/`. This also refuses `..` components. Those are the other way out of the folder, but the model does not resolve them, because `os.path.join` does not normalise paths.

## Left out

- Flask itself is not modelled. The following become values or parameters:
  - request parsing;
  - `render_template`, `redirect` and `send_file`;
  - the routing table;
  - the `index` route at app.py:37-39;
  - `app.run` at app.py:92-93.

  Instead, the routes return a response value.
- A missing form field is not modelled. `request.form[...]` at app.py:43 and app.py:78-79 raises, and Flask then answers 400. Every field is taken as present.
- QR encoding is not modelled: `qrcode.make` and `QRCode(...)` at app.py:33 and app.py:53-63, together with `make_image` and `img.save`. This is image generation in a library. The model records only the path the image is saved to.
- Effects on the file system are not modelled:
  - `os.path.exists` and `os.makedirs` at app.py:12-13 and app.py:26-27;
  - the save itself;
  - `send_file` failing on a missing file.
- Concurrency is not modelled. Two requests with the same ten-character stem race on one file. `FirstTenCharactersDecide` states the collision, but not the interleaving.
- `url_for` is taken as plain concatenation. Percent-escaping of the name is not modelled. The name is clean, but it can still hold characters such as spaces, `#`, `%` or non-ASCII letters, which `url_for` escapes.
- QrAppProperties.GeneratedUrlRoundTrip: holds only under the plain-concatenation reading of `url_for`. In the application, the text `hello world` is stored as `hello worl_qr_code.png`, the page receives `/static/qr_codes/hello%20worl_qr_code.png`, and the extracted piece is `hello%20worl_qr_code.png`, not the stored name.
- QrAppProperties.DownloadSendsSavedFile: holds only under the same reading. For `hello world` the download route asks for `static/qr_codes/hello%20worl_qr_code.png`, a file that was never saved, and the request fails.
- QrAppProperties.ConfinedDownloadSendsSavedFile: the same limit applies, and it fails for the same input. The escaped piece is a plain name, so the corrected route accepts it, but the file does not exist.
- QrApp.GenerateRoute: renders a response for every non-empty text, including where the application fails before saving anything:
  - `qr.make(fit=True)` at app.py:60 raises when the text exceeds the capacity of the largest QR version at error-correction level H;
  - `img.save` at app.py:70 raises when the path holds a NUL character, which the sanitiser keeps.

  Both surface as a server error. `FirstTenCharactersDecide` speaks of the responses, not of saves that did not happen.
- Only the POSIX `os.path.join` is modelled. The Windows `ntpath` rules (drive letters, `\`) are not.
- `..` components are not resolved. A path is modelled as the string `os.path.join` produces, not as the file it names.
- Python strings are modelled as sequences of Unicode scalar values. A Python `str` holding a lone surrogate has no counterpart. No Unicode normalisation applies.
