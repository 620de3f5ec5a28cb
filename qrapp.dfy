/**
 * The string logic of the QR-code web application (app.py): the filename
 * sanitiser, the stored-name rule of the generate route and of the
 * `generate_qr_code` helper, the image URL handed back to the page, and the
 * download route's path extraction and `.png` suffixing. Rendering, the QR
 * encoder and the file system are outside the model; each route is a function
 * from its form fields to what it would send back.
 */
module QrApp {
  import opened PyStrings
  import PosixPath

  /** `QR_FOLDER`, the directory the generate route saves into. */
  const QrFolder := "static/qr_codes"

  /** The separator the download route splits the submitted URL on. */
  const QrSeparator := "/qr_codes/"

  /** How many sanitised characters the stored name keeps. */
  const StemLength: nat := 10

  /** What the generate route appends to the stem. */
  const NameSuffix := "_qr_code.png"

  /** What the download route makes sure the download name ends with. */
  const PngSuffix := ".png"

  // ---------------------------------------------------------------------
  // sanitize_filename

  /** The character class `[\\/:*?"<>|]` the sanitiser replaces. */
  predicate IsForbidden(c: char) {
    c == '\\' || c == '/' || c == ':' || c == '*' || c == '?' ||
    c == '"' || c == '<' || c == '>' || c == '|'
  }

  /** No character of `s` is in the forbidden class. */
  predicate IsClean(s: string) {
    forall i :: 0 <= i < |s| ==> !IsForbidden(s[i])
  }

  /**
   * `sanitize_filename`: every forbidden character becomes one `_`, every
   * other character stays where it is.
   */
  function SanitizeFilename(data: string): (r: string)
    ensures |r| == |data|
    ensures forall i :: 0 <= i < |data| && IsForbidden(data[i]) ==> r[i] == '_'
    ensures forall i :: 0 <= i < |data| && !IsForbidden(data[i]) ==> r[i] == data[i]
    ensures IsClean(r)
    decreases |data|
  {
    if data == "" then ""
    else [if IsForbidden(data[0]) then '_' else data[0]] + SanitizeFilename(data[1..])
  }

  /** Sanitising a sanitised string changes nothing. */
  lemma SanitizeIdempotent(data: string)
    ensures SanitizeFilename(SanitizeFilename(data)) == SanitizeFilename(data)
  {
    var s := SanitizeFilename(data);
    SanitizeLeavesCleanUnchanged(s);
  }

  /** The sanitiser leaves a string unchanged exactly when it is clean already. */
  lemma SanitizeLeavesCleanUnchanged(s: string)
    ensures SanitizeFilename(s) == s <==> IsClean(s)
  {
    if IsClean(s) {
      assert forall i :: 0 <= i < |s| ==> SanitizeFilename(s)[i] == s[i];
    }
  }

  /** Sanitising the first `n` characters gives the first `n` sanitised characters. */
  lemma SanitizeTake(s: string, n: nat)
    ensures SanitizeFilename(Take(s, n)) == Take(SanitizeFilename(s), n)
  {
    var t := Take(s, n);
    assert forall i :: 0 <= i < |t| ==> t[i] == s[i];
  }

  // ---------------------------------------------------------------------
  // The stored name

  /**
   * The stored name of the generate route: the first ten sanitised
   * characters followed by `_qr_code.png`.
   */
  function QrCodeFilename(sanitized: string): (name: string)
    ensures EndsWith(name, NameSuffix)
    ensures StartsWith(sanitized, name[..|name| - |NameSuffix|])
    ensures |name| == |NameSuffix| + if |sanitized| < StemLength then |sanitized| else StemLength
    ensures IsClean(sanitized) ==> IsClean(name)
  {
    var stem := Take(sanitized, StemLength);
    assert (stem + NameSuffix)[..|stem|] == stem;
    stem + NameSuffix
  }

  /** Two stored names agree exactly when the ten-character stems agree. */
  lemma QrCodeFilenameEqual(s1: string, s2: string)
    ensures QrCodeFilename(s1) == QrCodeFilename(s2) <==> Take(s1, StemLength) == Take(s2, StemLength)
  {
    var n1, n2 := QrCodeFilename(s1), QrCodeFilename(s2);
    if n1 == n2 {
      assert Take(s1, StemLength) == n1[..|n1| - |NameSuffix|];
      assert Take(s2, StemLength) == n2[..|n2| - |NameSuffix|];
    }
  }

  /**
   * The path `generate_qr_code(data, save_dir)` saves to: the whole
   * sanitised text and `.png`, joined onto the directory. Unlike the route it
   * neither truncates nor refuses empty text.
   */
  function HelperFilePath(data: string, saveDir: string): (path: string)
    ensures EndsWith(path, PngSuffix)
    ensures saveDir != "" && !EndsWith(saveDir, "/") ==>
      path == saveDir + "/" + SanitizeFilename(data) + PngSuffix
    ensures saveDir == "" || EndsWith(saveDir, "/") ==>
      path == saveDir + SanitizeFilename(data) + PngSuffix
  {
    var stem := SanitizeFilename(data);
    CleanFileIsRelative(stem, PngSuffix);
    PosixPath.JoinFile(saveDir, stem, PngSuffix);
    var path := PosixPath.Join(saveDir, [stem + PngSuffix]);
    EndsWithConcat(if saveDir != "" && !EndsWith(saveDir, "/") then saveDir + "/" + stem else saveDir + stem, PngSuffix);
    path
  }

  /** A clean stem followed by an extension that does not start with `/` is a relative name. */
  lemma CleanFileIsRelative(stem: string, ext: string)
    requires IsClean(stem)
    requires ext != [] && ext[0] != '/'
    ensures !StartsWith(stem + ext, "/")
  {
    var file := stem + ext;
    if stem != "" {
      assert file[0] == stem[0] && !IsForbidden(stem[0]);
    }
    PosixPath.NotAbsolute(file);
  }

  /**
   * The helper's paths collide only when the whole sanitised texts agree:
   * nothing is lost to truncation there.
   */
  lemma HelperFilePathEqual(d1: string, d2: string, saveDir: string)
    ensures HelperFilePath(d1, saveDir) == HelperFilePath(d2, saveDir) <==>
      SanitizeFilename(d1) == SanitizeFilename(d2)
  {
    var p1, p2 := HelperFilePath(d1, saveDir), HelperFilePath(d2, saveDir);
    if p1 == p2 {
      var k := if saveDir != "" && !EndsWith(saveDir, "/") then |saveDir| + 1 else |saveDir|;
      assert SanitizeFilename(d1) == p1[k..|p1| - |PngSuffix|];
      assert SanitizeFilename(d2) == p2[k..|p2| - |PngSuffix|];
    }
  }

  // ---------------------------------------------------------------------
  // generate_qr_code_route

  /** What the generate route sends back. */
  datatype GenerateResponse =
    | RedirectToIndex
    | Rendered(qrCodeUrl: string, filename: string, savedPath: string)

  /**
   * `url_for('static', filename=f)`, taken as the static URL path, a `/` and
   * `f`, with nothing percent-escaped.
   */
  function StaticUrl(staticUrlPath: string, f: string): (url: string)
    ensures StartsWith(url, staticUrlPath + "/")
    ensures EndsWith(url, f)
    ensures |url| == |staticUrlPath| + 1 + |f|
  {
    assert (staticUrlPath + "/" + f)[..|staticUrlPath| + 1] == staticUrlPath + "/";
    EndsWithConcat(staticUrlPath + "/", f);
    staticUrlPath + "/" + f
  }

  /**
   * The generate route for the form field `data`, with Flask's static URL
   * path (`/static` by default) as a parameter. Empty text redirects to the
   * form; otherwise the response names the stored file, the path it is saved
   * to and the URL the page shows it under.
   */
  function GenerateRoute(data: string, staticUrlPath: string): (r: GenerateResponse)
    ensures r.RedirectToIndex? <==> data == ""
    ensures r.Rendered? ==> r.filename == QrCodeFilename(SanitizeFilename(data))
    ensures r.Rendered? ==> EndsWith(r.filename, NameSuffix)
    ensures r.Rendered? ==>
      r.filename[..|r.filename| - |NameSuffix|] == Take(SanitizeFilename(data), StemLength)
    ensures r.Rendered? ==> IsClean(r.filename)
    ensures r.Rendered? ==> r.savedPath == QrFolder + "/" + r.filename
    ensures r.Rendered? ==> r.qrCodeUrl == staticUrlPath + QrSeparator + r.filename
  {
    if data == "" then RedirectToIndex
    else
      var name := QrCodeFilename(SanitizeFilename(data));
      StoredNameIsRelative(name);
      QrFolderIsPlain();
      PosixPath.JoinRelative(QrFolder, name);
      UrlOfStoredName(staticUrlPath, name);
      Rendered(StaticUrl(staticUrlPath, "qr_codes/" + name), name, PosixPath.Join(QrFolder, [name]))
  }

  /** A clean name ending in `_qr_code.png` does not start with `/`. */
  lemma StoredNameIsRelative(name: string)
    requires IsClean(name) && EndsWith(name, NameSuffix)
    ensures !StartsWith(name, "/")
  {
    assert !IsForbidden(name[0]);
    PosixPath.NotAbsolute(name);
  }

  /** `static/qr_codes` is not empty and does not end in `/`. */
  lemma QrFolderIsPlain()
    ensures QrFolder != "" && !EndsWith(QrFolder, "/")
    ensures PosixPath.JoinStep("static", "qr_codes") == QrFolder
  {
    assert QrFolder[|QrFolder| - 1] == 's';
    assert !StartsWith("qr_codes", "/") by {
      PosixPath.NotAbsolute("qr_codes");
    }
    assert !EndsWith("static", "/") by {
      assert "static"[5] == 'c';
    }
  }

  /** The static URL of `qr_codes/<name>` is the static URL path, the separator and `name`. */
  lemma UrlOfStoredName(staticUrlPath: string, name: string)
    ensures StaticUrl(staticUrlPath, "qr_codes/" + name) == staticUrlPath + QrSeparator + name
  {
    assert "/" + "qr_codes/" == QrSeparator;
    assert (staticUrlPath + "/") + ("qr_codes/" + name) == (staticUrlPath + ("/" + "qr_codes/")) + name;
  }

  // ---------------------------------------------------------------------
  // download_qr_code

  /** What the download route sends back: the file at `path`, as an attachment named `downloadName`. */
  datatype DownloadResponse = SendFile(path: string, downloadName: string)

  /** The download name: `.png` is appended once unless the name already ends with it. */
  function DownloadName(filename: string): (r: string)
    ensures EndsWith(r, PngSuffix)
    ensures r == filename <==> EndsWith(filename, PngSuffix)
    ensures r != filename ==> r == filename + PngSuffix
  {
    if EndsWith(filename, PngSuffix) then filename else filename + PngSuffix
  }

  /** A download name is its own download name. */
  lemma DownloadNameIdempotent(filename: string)
    ensures DownloadName(DownloadName(filename)) == DownloadName(filename)
  {
  }

  /** `mycode` is downloaded as `mycode.png`. */
  lemma MycodeIsDownloadedAsMycodePng()
    ensures DownloadName("mycode") == "mycode.png"
  {
    assert "mycode"[2..] != PngSuffix by {
      assert "mycode"[2..][0] == 'c';
    }
  }

  /**
   * The piece of the submitted URL after its last `/qr_codes/` in Python's
   * left-to-right split: the whole URL when the separator does not occur,
   * otherwise a suffix the separator immediately precedes, and never
   * containing the separator; it is the last piece of every decomposition
   * of the URL whose cuts fall at the leftmost occurrences.
   */
  function RelativePath(qrCodeUrl: string): (piece: string)
    ensures !Contains(piece, QrSeparator)
    ensures !Contains(qrCodeUrl, QrSeparator) ==> piece == qrCodeUrl
    ensures Contains(qrCodeUrl, QrSeparator) ==> EndsWith(qrCodeUrl, QrSeparator + piece)
    ensures forall pieces ::
      (pieces != [] && JoinWith(QrSeparator, pieces) == qrCodeUrl && LeftmostCuts(QrSeparator, pieces)) ==>
      piece == Last(pieces)
  {
    LastPieceOfSplit(qrCodeUrl, QrSeparator);
    forall pieces | pieces != [] && JoinWith(QrSeparator, pieces) == qrCodeUrl && LeftmostCuts(QrSeparator, pieces)
      ensures Last(Split(qrCodeUrl, QrSeparator)) == Last(pieces)
    {
      SplitIsUnique(qrCodeUrl, QrSeparator, pieces);
    }
    Last(Split(qrCodeUrl, QrSeparator))
  }

  /**
   * The download route for the form fields `filename` and `qr_code_url`: the
   * file is looked up under `static/qr_codes` by the extracted piece, except
   * that a piece starting with `/` is used as an absolute path on its own.
   */
  function DownloadRoute(filename: string, qrCodeUrl: string): (r: DownloadResponse)
    ensures EndsWith(r.downloadName, PngSuffix)
    ensures EndsWith(filename, PngSuffix) ==> r.downloadName == filename
    ensures !EndsWith(filename, PngSuffix) ==> r.downloadName == filename + PngSuffix
    ensures !StartsWith(RelativePath(qrCodeUrl), "/") ==>
      r.path == QrFolder + "/" + RelativePath(qrCodeUrl)
    ensures StartsWith(RelativePath(qrCodeUrl), "/") ==> r.path == RelativePath(qrCodeUrl)
  {
    var piece := RelativePath(qrCodeUrl);
    var path := PosixPath.Join("static", ["qr_codes", piece]);
    PosixPath.JoinPair("static", "qr_codes", piece);
    QrFolderIsPlain();
    SendFile(path, DownloadName(filename))
  }

  // ---------------------------------------------------------------------
  // The download route with the extracted piece confined to the folder

  /**
   * A plain file name: one path component that names a file of the directory
   * it is joined onto, neither empty nor `.` nor `..`, with no `/`.
   */
  predicate IsPlainName(piece: string) {
    piece != "" && piece != "." && piece != ".." && '/' !in piece
  }

  /**
   * The download route as the comment at its extraction line intends it:
   * the extracted piece must be a relative path, here a plain file name, and
   * anything else is refused (`None`) instead of being handed to the join.
   */
  function ConfinedDownloadRoute(filename: string, qrCodeUrl: string): (r: Option<DownloadResponse>)
    ensures r.None? <==> !IsPlainName(RelativePath(qrCodeUrl))
    ensures r.Some? ==> r.value == DownloadRoute(filename, qrCodeUrl)
    ensures r.Some? ==> exists name :: IsPlainName(name) && r.value.path == QrFolder + "/" + name
  {
    var piece := RelativePath(qrCodeUrl);
    if IsPlainName(piece) then
      PosixPath.NotAbsolute(piece);
      var r := DownloadRoute(filename, qrCodeUrl);
      assert IsPlainName(piece) && r.path == QrFolder + "/" + piece;
      Some(r)
    else None
  }
}
