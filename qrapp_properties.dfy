/**
 * What the routes of the QR-code application promise together: which texts
 * share a stored file, and that the URL the generate route hands out leads
 * the download route back to the file it saved.
 */
module QrAppProperties {
  import opened PyStrings
  import opened QrApp

  // ---------------------------------------------------------------------
  // Collisions of stored names

  /**
   * Two non-empty texts are stored under the same name, and so at the same
   * path, exactly when their sanitised forms agree on the first ten
   * characters.
   */
  lemma StoredNameCollision(d1: string, d2: string, staticUrlPath: string)
    requires d1 != "" && d2 != ""
    ensures GenerateRoute(d1, staticUrlPath).filename == GenerateRoute(d2, staticUrlPath).filename <==>
      Take(SanitizeFilename(d1), StemLength) == Take(SanitizeFilename(d2), StemLength)
    ensures GenerateRoute(d1, staticUrlPath).savedPath == GenerateRoute(d2, staticUrlPath).savedPath <==>
      Take(SanitizeFilename(d1), StemLength) == Take(SanitizeFilename(d2), StemLength)
  {
    QrCodeFilenameEqual(SanitizeFilename(d1), SanitizeFilename(d2));
    var g1, g2 := GenerateRoute(d1, staticUrlPath), GenerateRoute(d2, staticUrlPath);
    if g1.savedPath == g2.savedPath {
      assert g1.filename == g1.savedPath[|QrFolder| + 1..];
      assert g2.filename == g2.savedPath[|QrFolder| + 1..];
    }
  }

  /**
   * Only the first ten characters of the text decide the response: two
   * texts that share them get the same name, path and URL, and the second
   * save overwrites the first.
   */
  lemma FirstTenCharactersDecide(d1: string, d2: string, staticUrlPath: string)
    requires d1 != "" && d2 != ""
    requires Take(d1, StemLength) == Take(d2, StemLength)
    ensures GenerateRoute(d1, staticUrlPath) == GenerateRoute(d2, staticUrlPath)
  {
    SanitizeTake(d1, StemLength);
    SanitizeTake(d2, StemLength);
    StoredNameCollision(d1, d2, staticUrlPath);
  }

  /**
   * Clean text of at most ten characters is stored under its own name with
   * `_qr_code.png` appended.
   */
  lemma ShortCleanTextKeepsItsName(data: string, staticUrlPath: string)
    requires data != "" && IsClean(data) && |data| <= StemLength
    ensures GenerateRoute(data, staticUrlPath).filename == data + NameSuffix
    ensures GenerateRoute(data, staticUrlPath).savedPath == QrFolder + "/" + (data + NameSuffix)
  {
    SanitizeLeavesCleanUnchanged(data);
    assert Take(data, StemLength) == data;
  }

  /**
   * Text made only of forbidden characters is stored under a stem of
   * underscores, one per character up to ten.
   */
  lemma OnlyForbiddenCharacters(data: string, staticUrlPath: string)
    requires data != ""
    requires forall i :: 0 <= i < |data| ==> IsForbidden(data[i])
    ensures GenerateRoute(data, staticUrlPath).filename ==
      seq(if |data| < StemLength then |data| else StemLength, _ => '_') + NameSuffix
  {
    var n := if |data| < StemLength then |data| else StemLength;
    var u := SanitizeFilename(data);
    assert Take(u, StemLength) == seq(n, _ => '_');
  }

  // ---------------------------------------------------------------------
  // From the generated URL back to the stored file

  /** A text that contains the separator contains a `/`. */
  lemma SeparatorNeedsSlash(s: string)
    ensures Contains(s, QrSeparator) ==> '/' in s
  {
    if Contains(s, QrSeparator) {
      var j: nat :| OccursAt(s, QrSeparator, j);
      assert s[j..j + |QrSeparator|][0] == s[j];
    }
  }

  /**
   * Extraction inverts URL construction: whatever follows the separator is
   * recovered whole when it does not contain the separator itself, provided
   * the part in front does not end in `/qr_codes` (which would let an
   * earlier match swallow the separator's leading `/`).
   */
  lemma {:induction false} RelativePathOfBuiltUrl(front: string, name: string)
    requires !Contains(name, QrSeparator)
    requires !EndsWith(front, "/qr_codes")
    ensures RelativePath(front + QrSeparator + name) == name
    decreases |front|
  {
    var s := front + QrSeparator + name;
    var n := |QrSeparator|;
    assert s[|front|..|front| + n] == QrSeparator;
    assert OccursAt(s, QrSeparator, |front|);
    assert StartsWith(s, front + QrSeparator) by {
      assert s[..|front| + n] == front + QrSeparator;
    }
    assert Contains(s, QrSeparator);
    var i := FirstOccurrence(s, QrSeparator).value;
    assert i <= |front|;
    MatchNearFront(front, s, i);
    LastPieceAfterCut(s, QrSeparator, i);
    var rest := s[i + n..];
    if i == |front| {
      assert rest == name;
      LastPieceOfSplit(rest, QrSeparator);
    } else {
      var front' := front[i + n..];
      DropFromConcat(front + QrSeparator, name, i + n);
      DropFromConcat(front, QrSeparator, i + n);
      assert rest == front' + QrSeparator + name;
      EndsWithDrop(front, i + n, "/qr_codes");
      RelativePathOfBuiltUrl(front', name);
    }
  }

  /**
   * A match of the separator that starts before `front` ends either lies
   * inside `front`, or is the separator placed right after `front`, or
   * overlaps it; the separator has `/` only at its two ends, so an
   * overlapping match starts nine characters early and `front` then ends in
   * `/qr_codes`.
   */
  lemma MatchNearFront(front: string, s: string, i: nat)
    requires StartsWith(s, front + QrSeparator)
    requires OccursAt(s, QrSeparator, i) && i <= |front|
    ensures i == |front| || i + |QrSeparator| <= |front| || EndsWith(front, "/qr_codes")
  {
    var n := |QrSeparator|;
    if |front| < i + n && i < |front| {
      var d := |front| - i;
      assert s[|front|] == (front + QrSeparator)[|front|] == '/';
      assert s[i..i + n][d] == s[|front|];
      assert QrSeparator[d] == '/';
      assert d == 9;
      assert s[..|front|] == front by {
        assert s[..|front| + n][..|front|] == (front + QrSeparator)[..|front|];
      }
      assert front[|front| - 9..] == s[i..i + 9];
      assert s[i..i + 9] == s[i..i + n][..9];
    }
  }

  /**
   * The URL the generate route hands to the page leads the download route
   * back to the stored name, provided the static URL path does not end in
   * `/qr_codes`.
   */
  lemma GeneratedUrlRoundTrip(data: string, staticUrlPath: string)
    requires data != ""
    requires !EndsWith(staticUrlPath, "/qr_codes")
    ensures RelativePath(GenerateRoute(data, staticUrlPath).qrCodeUrl) ==
      GenerateRoute(data, staticUrlPath).filename
  {
    var name := GenerateRoute(data, staticUrlPath).filename;
    CleanHasNoSlash(name);
    SeparatorNeedsSlash(name);
    RelativePathOfBuiltUrl(staticUrlPath, name);
  }

  /**
   * Generate, then download with the URL the page received: the file sent
   * is the file the generate route saved, whatever download name is asked
   * for.
   */
  lemma DownloadSendsSavedFile(data: string, staticUrlPath: string, userName: string)
    requires data != ""
    requires !EndsWith(staticUrlPath, "/qr_codes")
    ensures DownloadRoute(userName, GenerateRoute(data, staticUrlPath).qrCodeUrl).path ==
      GenerateRoute(data, staticUrlPath).savedPath
  {
    var name := GenerateRoute(data, staticUrlPath).filename;
    GeneratedUrlRoundTrip(data, staticUrlPath);
    assert !StartsWith(name, "/") by {
      assert name[..1][0] == name[0];
    }
  }

  /** The stored name, offered as download name, is kept as it is. */
  lemma StoredNameKeptOnDownload(data: string, staticUrlPath: string, qrCodeUrl: string)
    requires data != ""
    ensures DownloadRoute(GenerateRoute(data, staticUrlPath).filename, qrCodeUrl).downloadName ==
      GenerateRoute(data, staticUrlPath).filename
  {
    QrNameEndsWithPng(GenerateRoute(data, staticUrlPath).filename);
  }

  /** A name ending in `_qr_code.png` already ends in `.png`. */
  lemma QrNameEndsWithPng(name: string)
    ensures EndsWith(name, NameSuffix) ==> EndsWith(name, PngSuffix)
  {
    assert "_qr_code" + PngSuffix == NameSuffix;
    EndsWithTail(name, "_qr_code", PngSuffix);
  }

  /** A clean text has no `/`. */
  lemma CleanHasNoSlash(s: string)
    ensures IsClean(s) ==> '/' !in s
  {
  }

  /**
   * With `/qr_codes` as static URL path the round trip fails: the split
   * matches one character early, at the start of the URL, and the piece
   * keeps a `qr_codes/` in front of the stored name.
   */
  lemma StaticPathEndingInQrCodes(data: string)
    requires data != ""
    ensures RelativePath(GenerateRoute(data, "/qr_codes").qrCodeUrl) ==
      "qr_codes/" + GenerateRoute(data, "/qr_codes").filename
  {
    var name := GenerateRoute(data, "/qr_codes").filename;
    CleanHasNoSlash(name);
    SeparatorAfterQrCodesNeedsSlash(name);
    DoubledFolder(name);
    RelativePathOfBuiltUrl("", "qr_codes/" + name);
  }

  /** `/qr_codes` and the separator read as the separator and `qr_codes/`. */
  lemma DoubledFolder(name: string)
    ensures "/qr_codes" + QrSeparator + name == "" + QrSeparator + ("qr_codes/" + name)
  {
    assert "/qr_codes" + QrSeparator == QrSeparator + "qr_codes/";
  }

  /**
   * In `qr_codes/` followed by `name`, a match of the separator has to start
   * at the only `/` of the front part and end in `name`.
   */
  lemma SeparatorAfterQrCodesNeedsSlash(name: string)
    ensures Contains("qr_codes/" + name, QrSeparator) ==> '/' in name
  {
    var t := "qr_codes/" + name;
    if Contains(t, QrSeparator) {
      var j: nat :| OccursAt(t, QrSeparator, j);
      assert t[j..j + 10][0] == t[j] && t[j..j + 10][9] == t[j + 9];
      assert t[j] == '/' && t[j + 9] == '/';
      assert j < 9 ==> j == 8;
      assert name[j + 9 - 9] == '/';
    }
  }

  /**
   * A piece that starts with `/` is not kept under `static/qr_codes`: the
   * download route sends whatever absolute path the submitted URL names
   * after its separator.
   */
  lemma AbsolutePieceLeavesFolder(front: string, absolute: string, userName: string)
    requires StartsWith(absolute, "/")
    requires !Contains(absolute, QrSeparator)
    requires !EndsWith(front, "/qr_codes")
    ensures DownloadRoute(userName, front + QrSeparator + absolute).path == absolute
  {
    RelativePathOfBuiltUrl(front, absolute);
  }

  /**
   * The URL `/qr_codes//x` makes the download route send `/x`, a file
   * outside `static/qr_codes`.
   */
  lemma SlashPieceEscapesFolder()
    ensures DownloadRoute("code", "/qr_codes//x").path == "/x"
  {
    assert "" + QrSeparator + "/x" == "/qr_codes//x";
    assert !Contains("/x", QrSeparator) by {
      SeparatorNeedsTenCharacters("/x");
    }
    AbsolutePieceLeavesFolder("", "/x", "code");
  }

  /** The separator does not fit in fewer than ten characters. */
  lemma SeparatorNeedsTenCharacters(s: string)
    ensures Contains(s, QrSeparator) ==> |s| >= |QrSeparator|
  {
  }

  /**
   * A URL without the separator is taken whole as the piece, so an absolute
   * URL path is sent as it stands.
   */
  lemma AbsoluteUrlWithoutSeparator(qrCodeUrl: string, userName: string)
    requires StartsWith(qrCodeUrl, "/")
    requires !Contains(qrCodeUrl, QrSeparator)
    ensures DownloadRoute(userName, qrCodeUrl).path == qrCodeUrl
  {
    assert RelativePath(qrCodeUrl) == qrCodeUrl;
  }

  /** A text that contains the separator has a `/` directly followed by `q`. */
  lemma SeparatorOpensWithSlashQ(s: string)
    ensures Contains(s, QrSeparator) ==> exists j :: 0 <= j < |s| - 1 && s[j] == '/' && s[j + 1] == 'q'
  {
    if Contains(s, QrSeparator) {
      var j: nat :| OccursAt(s, QrSeparator, j);
      assert s[j..j + |QrSeparator|][0] == s[j] && s[j..j + |QrSeparator|][1] == s[j + 1];
    }
  }

  /** The URL `/etc/passwd` makes the download route send `/etc/passwd`. */
  lemma EtcPasswdIsSent()
    ensures DownloadRoute("code", "/etc/passwd").path == "/etc/passwd"
  {
    var url := "/etc/passwd";
    SeparatorOpensWithSlashQ(url);
    assert StartsWith(url, "/") by {
      assert url[..1][0] == url[0];
    }
    AbsoluteUrlWithoutSeparator(url, "code");
  }

  /**
   * The confined route refuses every URL whose extracted piece the join
   * would treat as absolute, with or without the separator in it.
   */
  lemma ConfinedRefusesAbsolutePiece(qrCodeUrl: string, userName: string)
    requires StartsWith(RelativePath(qrCodeUrl), "/")
    ensures ConfinedDownloadRoute(userName, qrCodeUrl).None?
  {
    var piece := RelativePath(qrCodeUrl);
    assert piece[..1][0] == piece[0];
  }

  /**
   * The confined route still serves the URLs the generate route hands out:
   * it sends the file that route saved.
   */
  lemma ConfinedDownloadSendsSavedFile(data: string, staticUrlPath: string, userName: string)
    requires data != ""
    requires !EndsWith(staticUrlPath, "/qr_codes")
    ensures ConfinedDownloadRoute(userName, GenerateRoute(data, staticUrlPath).qrCodeUrl) ==
      Some(DownloadRoute(userName, GenerateRoute(data, staticUrlPath).qrCodeUrl))
    ensures ConfinedDownloadRoute(userName, GenerateRoute(data, staticUrlPath).qrCodeUrl).value.path ==
      GenerateRoute(data, staticUrlPath).savedPath
  {
    var name := GenerateRoute(data, staticUrlPath).filename;
    GeneratedUrlRoundTrip(data, staticUrlPath);
    DownloadSendsSavedFile(data, staticUrlPath, userName);
    CleanHasNoSlash(name);
    assert |name| >= |NameSuffix|;
  }
}
