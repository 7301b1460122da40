/** Model of o2.Validator's regular-expression checks (o2.validator.regexp.js).
    Each regular expression is restated as a predicate over the string, in the shape the
    expression has; a lemma then gives the simpler characterisation of what it accepts.
    The `i` flag is modelled as ASCII case-insensitivity. */
module ValidatorRegExp {
  import opened Common

  // ---------------------------------------------------------------------------
  // isWhitespace: /^\s*$/

  /** `\s*` anchored at both ends, as a matcher consuming one character at a time. */
  predicate IsWhitespace(text: string)
    decreases |text|
  {
    text == [] || (IsJsSpace(text[0]) && IsWhitespace(text[1..]))
  }

  /** Every character is white space; in particular the empty string qualifies. */
  lemma {:induction false} IsWhitespaceIff(text: string)
    ensures IsWhitespace(text) <==> forall i :: 0 <= i < |text| ==> IsJsSpace(text[i])
    decreases |text|
  {
    if text != [] {
      IsWhitespaceIff(text[1..]);
      assert forall i :: 1 <= i < |text| ==> text[i] == text[1..][i - 1];
    }
  }

  // ---------------------------------------------------------------------------
  // isUrl: /^(https?|ftp|file):\/\/[\-A-Z0-9+&@#\/%?=~_|!:,.;]*[\-A-Z0-9+&@#\/%=~_|]$/i

  /** The last character class `[\-A-Z0-9+&@#\/%=~_|]` (case-insensitive). */
  predicate IsUrlEndChar(c: char) {
    IsAsciiLetter(c) || IsAsciiDigit(c) || c in "-+&@#/%=~_|"
  }

  /** The repeated character class: the end class plus `? ! : , . ;`. */
  predicate IsUrlChar(c: char) {
    IsUrlEndChar(c) || c in "?!:,.;"
  }

  const Schemes: seq<string> := ["http", "https", "ftp", "file"]

  /** `(https?|ftp|file):\/\/` matches at the start of `url`, consuming `n` characters. */
  predicate SchemePrefix(url: string, n: nat) {
    exists k :: 0 <= k < |Schemes| && n == |Schemes[k]| + 3 && n <= |url|
      && LowerString(url[..|Schemes[k]|]) == Schemes[k] && url[|Schemes[k]|..n] == "://"
  }

  /** `[A]*[B]$` on the rest of the string, matched greedily character by character. */
  predicate UrlTailMatches(tail: string)
    decreases |tail|
  {
    |tail| >= 1 &&
    ((|tail| == 1 && IsUrlEndChar(tail[0])) || (|tail| > 1 && IsUrlChar(tail[0]) && UrlTailMatches(tail[1..])))
  }

  predicate IsUrl(url: string) {
    exists n :: 0 <= n <= |url| && SchemePrefix(url, n) && UrlTailMatches(url[n..])
  }

  /** The tail matches exactly when it is non-empty, uses only allowed characters and ends
      in a character of the end class (so not in `? ! : , . ;`). */
  lemma {:induction false} UrlTailIff(tail: string)
    ensures UrlTailMatches(tail) <==>
      (|tail| >= 1 && (forall i :: 0 <= i < |tail| ==> IsUrlChar(tail[i])) && IsUrlEndChar(tail[|tail| - 1]))
    decreases |tail|
  {
    if |tail| > 1 {
      UrlTailIff(tail[1..]);
      assert forall i :: 1 <= i < |tail| ==> tail[i] == tail[1..][i - 1];
    }
  }

  /** A bare scheme is not a URL, nor is one ending in `.`. */
  lemma UrlRejections()
    ensures !IsUrl("http://")
    ensures !IsUrl("http://example.com.")
  {
    var u := "http://example.com.";
    forall n | 0 <= n <= |u| && SchemePrefix(u, n) ensures !UrlTailMatches(u[n..]) {
      UrlTailIff(u[n..]);
      assert u[n..][|u[n..]| - 1] == '.';
    }
    forall n | 0 <= n <= |"http://"| && SchemePrefix("http://", n) ensures !UrlTailMatches("http://"[n..]) {
      var k :| 0 <= k < |Schemes| && n == |Schemes[k]| + 3 && LowerString("http://"[..|Schemes[k]|]) == Schemes[k];
      assert n == 7;
    }
  }

  lemma UrlAccepts()
    ensures IsUrl("HTTP://a.b/c")
  {
    var u := "HTTP://a.b/c";
    assert SchemePrefix(u, 7) by {
      var h := u[..4];
      assert h == "HTTP";
      var l := LowerString(h);
      assert l[0] == ToLowerAscii('H') == 'h';
      assert l[1] == ToLowerAscii('T') == 't';
      assert l[2] == ToLowerAscii('T') == 't';
      assert l[3] == ToLowerAscii('P') == 'p';
      assert l == "http";
      assert |Schemes[0]| == 4 && Schemes[0] == "http";
      assert u[4..7] == "://";
    }
    assert u[7..] == "a.b/c";
    assert UrlTailMatches("c");
    assert UrlTailMatches("/c") by { assert "/c"[1..] == "c"; }
    assert UrlTailMatches("b/c") by { assert "b/c"[1..] == "/c"; }
    assert UrlTailMatches(".b/c") by { assert ".b/c"[1..] == "b/c"; }
    assert UrlTailMatches("a.b/c") by { assert "a.b/c"[1..] == ".b/c"; }
  }

  // ---------------------------------------------------------------------------
  // isEmail: /[a-z0-9!#$%&'*+\/=?\^_`{|}~\-."]+@[a-z0-9.]+/i  (not anchored)

  predicate IsLocalChar(c: char) {
    IsAsciiLetter(c) || IsAsciiDigit(c) || c in "!#$%&'*+/=?^_`{|}~-.\""
  }

  predicate IsDomainChar(c: char) {
    IsAsciiLetter(c) || IsAsciiDigit(c) || c == '.'
  }

  /** `[local]+@[domain]+` matches `mail[p..r]` with the `@` at `q`. */
  predicate EmailMatchAt(mail: string, p: int, q: int, r: int) {
    0 <= p < q && q + 1 < r <= |mail| && mail[q] == '@'
    && (forall i :: p <= i < q ==> IsLocalChar(mail[i]))
    && (forall i :: q + 1 <= i < r ==> IsDomainChar(mail[i]))
  }

  /** The expression matches somewhere in the string. */
  predicate IsEmail(mail: string) {
    exists p, q, r | 0 <= p < q < r <= |mail| :: EmailMatchAt(mail, p, q, r)
  }

  /** The two characters around an `@` that the expression looks at. */
  predicate AtSignFits(mail: string, q: int) {
    0 < q < |mail| - 1 && mail[q] == '@' && IsLocalChar(mail[q - 1]) && IsDomainChar(mail[q + 1])
  }

  /** Because the expression is unanchored, only the two characters around some `@` matter. */
  lemma IsEmailIff(mail: string)
    ensures IsEmail(mail) <==> exists q :: AtSignFits(mail, q)
  {
    if exists q :: AtSignFits(mail, q) {
      var q: int :| AtSignFits(mail, q);
      assert EmailMatchAt(mail, q - 1, q, q + 2);
    }
    if IsEmail(mail) {
      var p: int, q: int, r: int :| EmailMatchAt(mail, p, q, r);
      assert EmailMatchAt(mail, p, q, r);
      assert IsLocalChar(mail[q - 1]) && IsDomainChar(mail[q + 1]);
      assert AtSignFits(mail, q);
    }
  }

  /** Two of the documented false positives and an obvious rejection. */
  lemma EmailExamples()
    ensures IsEmail("not an address: x@y")
    ensures IsEmail("..@..")
    ensures !IsEmail("@example.com")
  {
    IsEmailIff("not an address: x@y");
    assert AtSignFits("not an address: x@y", 17);
    IsEmailIff("..@..");
    assert AtSignFits("..@..", 2);
    IsEmailIff("@example.com");
    var m := "@example.com";
    forall q | 0 < q < |m| - 1 ensures !AtSignFits(m, q) { assert m[q] != '@'; }
  }
}
