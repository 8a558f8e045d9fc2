/**
 The two pieces of logic in the browser script (public/script.js): the file-name test that
 enables the upload button (line 15, `/\.(xlsx|xls|csv)$/i`), and `truncateUrl`
 (lines 128-133), which shortens a broken link for display in the results table.
 */
module ClientScript {
  import opened JsText

  // ---------------------------------------------------------------------------
  // String.prototype.substring
  // ---------------------------------------------------------------------------

  /** An index argument of `substring`, clamped into `[0, len]`. */
  function ClampIndex(x: int, len: nat): (r: nat)
    ensures r <= len
    ensures 0 <= x <= len ==> r == x
    ensures x < 0 ==> r == 0
    ensures x > len ==> r == len
  {
    if x < 0 then 0 else if x > len then len else x
  }

  /** `s.substring(start, end)`: both indices are clamped to the string, and swapped when
      the first is the larger. */
  function Substring(s: string, start: int, end: int): (r: string)
    ensures 0 <= start <= end <= |s| ==> r == s[start..end]
    ensures start <= 0 ==> r == s[..ClampIndex(end, |s|)]
  {
    var a := ClampIndex(start, |s|);
    var b := ClampIndex(end, |s|);
    if a <= b then s[a..b] else s[b..a]
  }

  /** The order of the two indices does not matter. */
  lemma SubstringSymmetric(s: string, start: int, end: int)
    ensures Substring(s, start, end) == Substring(s, end, start)
  {
  }

  // ---------------------------------------------------------------------------
  // truncateUrl
  // ---------------------------------------------------------------------------

  /** The default of `maxLength`. */
  const DefaultMaxLength: int := 60

  /** `truncateUrl(url, maxLength)`: a URL that fits is shown whole; a longer one keeps as
      much of its beginning as leaves room for an ellipsis. Below 3 the kept part is empty
      (`substring` clamps a negative end to 0) and the ellipsis alone exceeds the bound. */
  function TruncateUrl(url: string, maxLength: int): (r: string)
    ensures |url| <= maxLength ==> r == url
    ensures |url| > maxLength >= 3 ==> r == url[..maxLength - 3] + "..." && |r| == maxLength
    ensures |url| > maxLength && maxLength < 3 ==> r == "..."
  {
    if |url| <= maxLength then url
    else Substring(url, 0, maxLength - 3) + "..."
  }

  /** `truncateUrl(url)`: at most 60 characters, the URL itself when it fits, and otherwise
      its first 57 characters and an ellipsis. */
  function TruncateUrlDefault(url: string): (r: string)
    ensures |r| <= DefaultMaxLength
    ensures |url| <= DefaultMaxLength ==> r == url
    ensures |url| > DefaultMaxLength ==> r == url[..57] + "..."
  {
    TruncateUrl(url, DefaultMaxLength)
  }

  /** With room for the ellipsis, the result never exceeds the bound. */
  lemma TruncateUrlBounded(url: string, maxLength: int)
    requires maxLength >= 3
    ensures |TruncateUrl(url, maxLength)| <= maxLength
  {
  }

  /** The result is the URL itself, or a beginning of it followed by `...`. */
  lemma TruncateUrlShape(url: string, maxLength: int)
    ensures var r := TruncateUrl(url, maxLength);
            r == url
            || (|r| >= 3 && r[|r| - 3..] == "..." && |r| - 3 <= |url| && r[..|r| - 3] == url[..|r| - 3])
  {
    var r := TruncateUrl(url, maxLength);
    if |url| > maxLength {
      var k := ClampIndex(maxLength - 3, |url|);
      assert r == url[..k] + "...";
      assert r[..|r| - 3] == url[..k];
    }
  }

  /** Among the shortened forms `p + "..."` with `p` a beginning of the URL that fit the
      bound, the one shown keeps the longest beginning. */
  lemma TruncateUrlKeepsMost(url: string, maxLength: int, p: string)
    requires |url| > maxLength >= 3
    requires |p| <= |url| && p == url[..|p|] && |p + "..."| <= maxLength
    ensures |p| <= |TruncateUrl(url, maxLength)| - 3
  {
  }

  /** Truncating an already truncated URL with the same bound changes nothing, for every
      bound. */
  lemma TruncateUrlIdempotent(url: string, maxLength: int)
    ensures TruncateUrl(TruncateUrl(url, maxLength), maxLength) == TruncateUrl(url, maxLength)
  {
    var r := TruncateUrl(url, maxLength);
    if |url| > maxLength && maxLength < 3 {
      assert r == "...";
      assert TruncateUrl(r, maxLength) == Substring(r, 0, maxLength - 3) + "...";
      assert Substring(r, 0, maxLength - 3) == [];
    }
  }

  // ---------------------------------------------------------------------------
  // The accepted file names
  // ---------------------------------------------------------------------------

  /** `/\.(xlsx|xls|csv)$/i.test(fileName)`: the name ends with one of the three extensions,
      in any letter case. Without the `m` flag `$` matches only at the very end. An accepted
      name is at least four characters long and has a dot. */
  predicate IsSpreadsheetName(fileName: string)
    ensures IsSpreadsheetName(fileName) ==> |fileName| >= 4 && LastDot(fileName).Some?
  {
    var n := |fileName|;
    assert EndsWithIgnoringCase(fileName, ".xlsx") ==> fileName[n - 5] == '.' by {
      if EndsWithIgnoringCase(fileName, ".xlsx") {
        assert LowerAscii(fileName[n - 5]) == LowerAscii(".xlsx"[0]);
      }
    }
    assert EndsWithIgnoringCase(fileName, ".xls") || EndsWithIgnoringCase(fileName, ".csv")
           ==> fileName[n - 4] == '.' by {
      if EndsWithIgnoringCase(fileName, ".xls") {
        assert LowerAscii(fileName[n - 4]) == LowerAscii(".xls"[0]);
      } else if EndsWithIgnoringCase(fileName, ".csv") {
        assert LowerAscii(fileName[n - 4]) == LowerAscii(".csv"[0]);
      }
    }
    EndsWithIgnoringCase(fileName, ".xlsx")
    || EndsWithIgnoringCase(fileName, ".xls")
    || EndsWithIgnoringCase(fileName, ".csv")
  }

  /** The position of the last dot of `s`, `None` if it has none. The script does not
      compute it: it is part of the reference reading of the file test that
      `IsSpreadsheetNameIff` proves equal to the regular expression. */
  function LastDot(s: string): (k: Option<nat>)
    ensures k.Some? ==> k.value < |s| && s[k.value] == '.'
                        && forall j :: k.value < j < |s| ==> s[j] != '.'
    ensures k.None? ==> forall j :: 0 <= j < |s| ==> s[j] != '.'
  {
    if s == [] then None
    else if s[|s| - 1] == '.' then Some(|s| - 1)
    else LastDot(s[..|s| - 1])
  }

  /** A dot with no dot after it is the last one. */
  lemma {:induction false} LastDotAt(s: string, k: nat)
    requires k < |s| && s[k] == '.' && forall j :: k < j < |s| ==> s[j] != '.'
    ensures LastDot(s) == Some(k)
  {
    if k < |s| - 1 {
      var init := s[..|s| - 1];
      assert init[k] == '.';
      LastDotAt(init, k);
    }
  }

  /** `s` with its ASCII capitals lowered. Like `LastDot`, a piece of the reference reading
      of the file test, not a call the script makes. */
  function Lowered(s: string): (r: string)
    ensures |r| == |s| && forall i :: 0 <= i < |s| ==> r[i] == LowerAscii(s[i])
  {
    seq(|s|, i requires 0 <= i < |s| => LowerAscii(s[i]))
  }

  /** The extension of a name as a reader thinks of it: the text after the last dot, in
      lower case, if the name has a dot. */
  function Extension(fileName: string): Option<string> {
    match LastDot(fileName)
    case None => None
    case Some(k) => Some(Lowered(fileName[k + 1..]))
  }

  /** `ext` is an extension written in lower case and without a dot. */
  predicate PlainExtension(ext: string) {
    forall i :: 0 <= i < |ext| ==> ext[i] != '.' && LowerAscii(ext[i]) == ext[i]
  }

  lemma FoldedDot(c: char)
    ensures LowerAscii(c) == '.' <==> c == '.'
  {
  }

  /** A name that ends with `.ext`, ignoring case, has the extension `ext`. */
  lemma EndsWithExtension(fileName: string, ext: string)
    requires PlainExtension(ext) && EndsWithIgnoringCase(fileName, "." + ext)
    ensures Extension(fileName) == Some(ext)
  {
    var n := |fileName|;
    var p := "." + ext;
    var k := n - |p|;
    assert LowerAscii(fileName[k]) == LowerAscii(p[0]);
    FoldedDot(fileName[k]);
    forall j | k < j < n
      ensures fileName[j] != '.'
    {
      assert LowerAscii(fileName[j]) == LowerAscii(p[j - k]) == ext[j - k - 1];
      FoldedDot(fileName[j]);
    }
    LastDotAt(fileName, k);
    var tail := fileName[k + 1..];
    forall i | 0 <= i < |tail|
      ensures Lowered(tail)[i] == ext[i]
    {
      assert tail[i] == fileName[k + (i + 1)];
      assert p[i + 1] == ext[i];
    }
    assert Lowered(tail) == ext;
  }

  /** A name with the extension `ext` ends with `.ext`, ignoring case. */
  lemma ExtensionEndsWith(fileName: string, ext: string)
    requires Extension(fileName) == Some(ext)
    ensures EndsWithIgnoringCase(fileName, "." + ext)
  {
    var n := |fileName|;
    var p := "." + ext;
    var k := LastDot(fileName).value;
    var tail := fileName[k + 1..];
    assert Lowered(tail) == ext;
    forall i | 0 <= i < |p|
      ensures LowerAscii(fileName[k + i]) == LowerAscii(p[i])
    {
      if i > 0 {
        assert fileName[k + i] == tail[i - 1];
      }
    }
  }

  /** A name ends with `.ext` ignoring case exactly when its extension is `ext`. */
  lemma EndsWithExtensionIff(fileName: string, ext: string)
    requires PlainExtension(ext)
    ensures EndsWithIgnoringCase(fileName, "." + ext) <==> Extension(fileName) == Some(ext)
  {
    if EndsWithIgnoringCase(fileName, "." + ext) {
      EndsWithExtension(fileName, ext);
    }
    if Extension(fileName) == Some(ext) {
      ExtensionEndsWith(fileName, ext);
    }
  }

  /** The file test accepts a name exactly when its extension is `xlsx`, `xls` or `csv`:
      case does not matter, and the name is judged only by what follows its last dot. */
  lemma IsSpreadsheetNameIff(fileName: string)
    ensures IsSpreadsheetName(fileName) <==> Extension(fileName) in {Some("xlsx"), Some("xls"), Some("csv")}
  {
    assert ".xlsx" == "." + "xlsx" && ".xls" == "." + "xls" && ".csv" == "." + "csv";
    EndsWithExtensionIff(fileName, "xlsx");
    EndsWithExtensionIff(fileName, "xls");
    EndsWithExtensionIff(fileName, "csv");
  }

  /** Typical names: workbooks and CSV files in any case are accepted. */
  lemma IsSpreadsheetNameAccepts()
    ensures IsSpreadsheetName("links.xlsx") && IsSpreadsheetName("LINKS.XLS") && IsSpreadsheetName("a.b.Csv")
  {
    AcceptsLowerWorkbook();
    AcceptsUpperWorkbook();
    AcceptsMixedCsv();
  }

  lemma AcceptsLowerWorkbook()
    ensures EndsWithIgnoringCase("links.xlsx", ".xlsx")
  {
    assert "links.xlsx"[5..] == ".xlsx";
  }

  lemma AcceptsUpperWorkbook()
    ensures EndsWithIgnoringCase("LINKS.XLS", ".xls")
  {
    assert LowerAscii('X') == 'x' && LowerAscii('L') == 'l' && LowerAscii('S') == 's';
  }

  lemma AcceptsMixedCsv()
    ensures EndsWithIgnoringCase("a.b.Csv", ".csv")
  {
    assert LowerAscii('C') == 'c';
  }

  /** Other documents, a name with the extension in the middle, and a trailing dot are
      refused. */
  lemma IsSpreadsheetNameRejects()
    ensures !IsSpreadsheetName("links.pdf") && !IsSpreadsheetName("links.xlsx.pdf") && !IsSpreadsheetName("links.csv.")
  {
    NotEndsWith("links.pdf", 'f');
    NotEndsWith("links.xlsx.pdf", 'f');
    NotEndsWith("links.csv.", '.');
  }

  /** A name whose last character is neither letter that ends the extensions is refused. */
  lemma NotEndsWith(fileName: string, last: char)
    requires fileName != [] && fileName[|fileName| - 1] == last
    requires LowerAscii(last) != 'x' && LowerAscii(last) != 's' && LowerAscii(last) != 'v'
    ensures !IsSpreadsheetName(fileName)
  {
    var n := |fileName|;
    assert LowerAscii(fileName[n - 5 + 4]) != LowerAscii(".xlsx"[4]);
    assert LowerAscii(fileName[n - 4 + 3]) != LowerAscii(".xls"[3]);
    assert LowerAscii(fileName[n - 4 + 3]) != LowerAscii(".csv"[3]);
  }
}
