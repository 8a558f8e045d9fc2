/**
 The URL classifier of the server (`isUrl`, server.js:100-107): the test
 `/^https?:\/\//i.test(str)`. The pattern is anchored at position 0 and case-insensitive;
 whatever follows `://` is not examined, so a value with a well-formed scheme and a
 malformed remainder is still a candidate. `test` on a string cannot throw, so the
 `catch` branch of the source never runs and is not modelled.
 */
module Classifier {
  import opened JsText

  /** The regular expression read atom by atom: `h`, `t`, `t`, `p`, an optional `s`, then
      `:`, `/`, `/`, every atom matched with the `i` flag's case folding. An accepted string
      is at least as long as `http://` and begins with `h` or `H`, so the empty string is
      refused. */
  predicate IsUrl(str: string)
    ensures IsUrl(str) ==> |str| >= 7 && (str[0] == 'h' || str[0] == 'H')
  {
    StartsWithIgnoringCase(str, "http")
    && var rest := str[4..];
       (StartsWithIgnoringCase(rest, "://")
        || (rest != [] && LowerAscii(rest[0]) == 's' && StartsWithIgnoringCase(rest[1..], "://")))
  }

  /** The classifier accepts exactly the strings that begin with `http://` or `https://`,
      in any mix of letter cases. */
  lemma IsUrlIff(str: string)
    ensures IsUrl(str) <==> StartsWithIgnoringCase(str, "http://") || StartsWithIgnoringCase(str, "https://")
  {
    if |str| >= 4 {
      var rest := str[4..];
      assert forall i :: 0 <= i < |rest| ==> rest[i] == str[4 + i];
      if rest != [] {
        var more := rest[1..];
        assert forall i :: 0 <= i < |more| ==> more[i] == str[5 + i];
        PlainScheme(str);
        SecureScheme(str);
      } else {
        PlainScheme(str);
      }
    }
  }

  /** `http` then `://` is `http://`. */
  lemma PlainScheme(str: string)
    requires |str| >= 4
    ensures StartsWithIgnoringCase(str, "http") && StartsWithIgnoringCase(str[4..], "://")
            <==> StartsWithIgnoringCase(str, "http://")
  {
    var rest := str[4..];
    assert forall i :: 0 <= i < |rest| ==> rest[i] == str[4 + i];
  }

  /** `http`, an `s` and `://` is `https://`. */
  lemma SecureScheme(str: string)
    requires |str| >= 5
    ensures StartsWithIgnoringCase(str, "http") && LowerAscii(str[4]) == 's'
            && StartsWithIgnoringCase(str[5..], "://")
            <==> StartsWithIgnoringCase(str, "https://")
  {
    var more := str[5..];
    assert forall i :: 0 <= i < |more| ==> more[i] == str[5 + i];
  }

  /** Only the scheme is looked at: anything may follow it. */
  lemma IsUrlPrefixClosed(str: string, tail: string)
    requires IsUrl(str)
    ensures IsUrl(str + tail)
  {
    IsUrlIff(str);
    IsUrlIff(str + tail);
    var s := str + tail;
    assert forall i :: 0 <= i < |str| ==> s[i] == str[i];
  }

  /** Letter case does not matter: strings that agree up to ASCII case are classified alike. */
  lemma IsUrlIgnoresCase(s: string, t: string)
    requires |s| == |t| && forall i :: 0 <= i < |s| ==> LowerAscii(s[i]) == LowerAscii(t[i])
    ensures IsUrl(s) <==> IsUrl(t)
  {
    IsUrlIff(s);
    IsUrlIff(t);
  }

  /** Both schemes are accepted whatever follows them, also in upper case. */
  lemma IsUrlAcceptsSchemes(tail: string)
    ensures IsUrl("http://" + tail) && IsUrl("https://" + tail) && IsUrl("HTTPS://" + tail)
  {
    IsUrlIff("http://" + tail);
    IsUrlIff("https://" + tail);
    AcceptsUpperScheme(tail);
  }

  lemma AcceptsUpperScheme(tail: string)
    ensures IsUrl("HTTPS://" + tail)
  {
    var u := "HTTPS://" + tail;
    assert LowerAscii(u[0]) == 'h' && LowerAscii(u[1]) == 't' && LowerAscii(u[2]) == 't';
    assert LowerAscii(u[3]) == 'p' && LowerAscii(u[4]) == 's' && u[5..8] == "://";
    IsUrlIff(u);
  }

  /** Other schemes, scheme-less hosts, a leading blank and a broken separator are refused. */
  lemma IsUrlRejectsOthers()
    ensures !IsUrl("ftp://x.com") && !IsUrl("www.example.com") && !IsUrl(" http://x")
    ensures !IsUrl("http:/x") && !IsUrl("httpx://x")
  {
    assert LowerAscii("ftp://x.com"[0]) != LowerAscii('h');
    assert LowerAscii("www.example.com"[0]) != LowerAscii('h');
    assert LowerAscii(" http://x"[0]) != LowerAscii('h');
    assert "http:/x"[4..] == ":/x" && LowerAscii(":/x"[2]) != LowerAscii('/');
    assert "httpx://x"[4..] == "x://x" && LowerAscii("x://x"[0]) != LowerAscii(':');
  }
}
