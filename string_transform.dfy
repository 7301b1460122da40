/** Model of o2.String's transforms (o2.string.transform.js). Each source function is a single
    global `replace`, `substr` or `join`; each is modelled as a function that scans the input
    left to right the way a global regular-expression replace does. */
module StringTransform {
  import opened Common

  const Br := "<br />"
  const Ellipsis := "&hellip;"
  const TruncationLength := 100

  // ---------------------------------------------------------------------------
  // toCamelCase: replace(/(\-[a-z])/g, m => m.toUpperCase().replace('-', ''))

  function ToCamelCase(s: string): string
  {
    if s == [] then []
    else if |s| >= 2 && s[0] == '-' && IsAsciiLower(s[1]) then [ToUpperAscii(s[1])] + ToCamelCase(s[2..])
    else [s[0]] + ToCamelCase(s[1..])
  }

  /** No dash in `s` is followed by a lower-case ASCII letter. */
  predicate NoDashLower(s: string) {
    forall i :: 0 <= i < |s| - 1 ==> !(s[i] == '-' && IsAsciiLower(s[i + 1]))
  }

  predicate NoDash(s: string) {
    forall i :: 0 <= i < |s| ==> s[i] != '-'
  }

  predicate NoUpper(s: string) {
    forall i :: 0 <= i < |s| ==> !IsAsciiUpper(s[i])
  }

  /** The first character of a camel-cased string is the input's first character or an
      upper-case letter produced from a `-x` pair. */
  lemma CamelHead(s: string)
    requires s != []
    ensures ToCamelCase(s) != []
    ensures ToCamelCase(s)[0] == s[0] || IsAsciiUpper(ToCamelCase(s)[0])
  {
  }

  /** toCamelCase leaves no dash followed by a lower-case letter (so it is idempotent) and
      never lengthens its input. */
  lemma {:induction false} CamelCaseRemovesDashLower(s: string)
    ensures NoDashLower(ToCamelCase(s))
    ensures |ToCamelCase(s)| <= |s|
    decreases |s|
  {
    if s == [] {
    } else if |s| >= 2 && s[0] == '-' && IsAsciiLower(s[1]) {
      CamelCaseRemovesDashLower(s[2..]);
      assert ToCamelCase(s) == [ToUpperAscii(s[1])] + ToCamelCase(s[2..]);
    } else {
      CamelCaseRemovesDashLower(s[1..]);
      var t := ToCamelCase(s[1..]);
      if t != [] {
        CamelHead(s[1..]);
      }
      assert ToCamelCase(s) == [s[0]] + t;
    }
  }

  /** A string without a `-x` pair is left unchanged, hence toCamelCase is idempotent. */
  lemma {:induction false} CamelCaseFixesNoDashLower(s: string)
    requires NoDashLower(s)
    ensures ToCamelCase(s) == s
    decreases |s|
  {
    if s != [] {
      assert NoDashLower(s[1..]) by {
        forall i | 0 <= i < |s[1..]| - 1 ensures !(s[1..][i] == '-' && IsAsciiLower(s[1..][i + 1])) {
          assert s[1..][i] == s[i + 1] && s[1..][i + 1] == s[i + 2];
        }
      }
      CamelCaseFixesNoDashLower(s[1..]);
    }
  }

  lemma CamelCaseIdempotent(s: string)
    ensures ToCamelCase(ToCamelCase(s)) == ToCamelCase(s)
  {
    CamelCaseRemovesDashLower(s);
    CamelCaseFixesNoDashLower(ToCamelCase(s));
  }

  // ---------------------------------------------------------------------------
  // toDashedFromCamelCase / toUnderscoreFromCamelCase:
  // replace(/([A-Z])/g, m => sep + m.toLowerCase())

  /** Replaces every ASCII capital with `sep` followed by its lower-case letter. */
  function SeparateCapitals(s: string, sep: char): (r: string)
    ensures NoUpper(s) ==> r == s
    ensures |r| >= |s|
  {
    if s == [] then []
    else if IsAsciiUpper(s[0]) then [sep, ToLowerAscii(s[0])] + SeparateCapitals(s[1..], sep)
    else [s[0]] + SeparateCapitals(s[1..], sep)
  }

  function ToDashedFromCamelCase(s: string): string {
    SeparateCapitals(s, '-')
  }

  function ToUnderscoreFromCamelCase(s: string): string {
    SeparateCapitals(s, '_')
  }

  /** The output of either conversion has no ASCII capital, and each capital of the input
      becomes exactly one separator plus its lower-case letter. */
  lemma {:induction false} SeparateCapitalsNoUpper(s: string, sep: char)
    requires !IsAsciiUpper(sep)
    ensures NoUpper(SeparateCapitals(s, sep))
    ensures |SeparateCapitals(s, sep)| == |s| + CountUpper(s)
    decreases |s|
  {
    if s != [] {
      SeparateCapitalsNoUpper(s[1..], sep);
      if IsAsciiUpper(s[0]) {
        assert SeparateCapitals(s, sep) == [sep, ToLowerAscii(s[0])] + SeparateCapitals(s[1..], sep);
      } else {
        assert SeparateCapitals(s, sep) == [s[0]] + SeparateCapitals(s[1..], sep);
      }
    }
  }

  function CountUpper(s: string): nat {
    if s == [] then 0 else (if IsAsciiUpper(s[0]) then 1 else 0) + CountUpper(s[1..])
  }

  lemma DashedHasNoUpper(s: string)
    ensures NoUpper(ToDashedFromCamelCase(s))
    ensures |ToDashedFromCamelCase(s)| == |s| + CountUpper(s)
  {
    SeparateCapitalsNoUpper(s, '-');
  }

  lemma UnderscoredHasNoUpper(s: string)
    ensures NoUpper(ToUnderscoreFromCamelCase(s))
    ensures |ToUnderscoreFromCamelCase(s)| == |s| + CountUpper(s)
  {
    SeparateCapitalsNoUpper(s, '_');
  }

  /** For a dash-free input, camel-casing the dashed form gives the input back
      ('loremIpsum' -> 'lorem-ipsum' -> 'loremIpsum'). */
  lemma {:induction false} CamelDashedRoundTrip(s: string)
    requires NoDash(s)
    ensures ToCamelCase(ToDashedFromCamelCase(s)) == s
    decreases |s|
  {
    if s != [] {
      assert NoDash(s[1..]) by {
        forall i | 0 <= i < |s[1..]| ensures s[1..][i] != '-' { assert s[1..][i] == s[i + 1]; }
      }
      CamelDashedRoundTrip(s[1..]);
      var rest := ToDashedFromCamelCase(s[1..]);
      if IsAsciiUpper(s[0]) {
        var d := ['-', ToLowerAscii(s[0])] + rest;
        assert ToDashedFromCamelCase(s) == d;
        assert d[2..] == rest;
        assert ToUpperAscii(ToLowerAscii(s[0])) == s[0];
        assert ToCamelCase(d) == [s[0]] + ToCamelCase(rest);
      } else {
        var d := [s[0]] + rest;
        assert ToDashedFromCamelCase(s) == d;
        assert d[1..] == rest;
        assert ToCamelCase(d) == [s[0]] + ToCamelCase(rest);
      }
    }
  }

  // ---------------------------------------------------------------------------
  // nl2br: replace(/\r\n|\n|\r/g, '<br />')

  function Nl2Br(s: string): string {
    if s == [] then []
    else if |s| >= 2 && s[0] == '\r' && s[1] == '\n' then Br + Nl2Br(s[2..])
    else if s[0] == '\n' || s[0] == '\r' then Br + Nl2Br(s[1..])
    else [s[0]] + Nl2Br(s[1..])
  }

  predicate NoLineBreak(s: string) {
    forall i :: 0 <= i < |s| ==> s[i] != '\n' && s[i] != '\r'
  }

  /** nl2br leaves no line-break character behind. */
  lemma {:induction false} Nl2BrNoLineBreak(s: string)
    ensures NoLineBreak(Nl2Br(s))
    decreases |s|
  {
    if s == [] {
    } else if |s| >= 2 && s[0] == '\r' && s[1] == '\n' {
      Nl2BrNoLineBreak(s[2..]);
      assert Nl2Br(s) == Br + Nl2Br(s[2..]);
    } else if s[0] == '\n' || s[0] == '\r' {
      Nl2BrNoLineBreak(s[1..]);
      assert Nl2Br(s) == Br + Nl2Br(s[1..]);
    } else {
      Nl2BrNoLineBreak(s[1..]);
      assert Nl2Br(s) == [s[0]] + Nl2Br(s[1..]);
    }
  }

  /** Every `\r\n`, `\n` or `\r` becomes one `\n`. */
  function NormalizeNewlines(s: string): string {
    if s == [] then []
    else if |s| >= 2 && s[0] == '\r' && s[1] == '\n' then "\n" + NormalizeNewlines(s[2..])
    else if s[0] == '\n' || s[0] == '\r' then "\n" + NormalizeNewlines(s[1..])
    else [s[0]] + NormalizeNewlines(s[1..])
  }

  // ---------------------------------------------------------------------------
  // br2nl: replace(/<br\s*\/?>/g, '\n')

  /** Number of leading characters of `s` that are `\s`. */
  function SpaceRun(s: string): (n: nat)
    ensures n <= |s|
    ensures forall i :: 0 <= i < n ==> IsJsSpace(s[i])
    ensures n < |s| ==> !IsJsSpace(s[n])
  {
    if s != [] && IsJsSpace(s[0]) then 1 + SpaceRun(s[1..]) else 0
  }

  /** Length of the match of `<br\s*\/?>` at the start of `s`, or 0 when it does not match
      there (no backtracking can help: fewer blanks leave a blank where `/` or `>` must be). */
  function BrMatch(s: string): (n: nat)
    ensures n <= |s|
    ensures n > 0 ==> n >= 4 && s[..3] == "<br" && s[n - 1] == '>'
  {
    if !StartsWith(s, "<br") then 0
    else
      var j := 3 + SpaceRun(s[3..]);
      var k := if j < |s| && s[j] == '/' then j + 1 else j;
      if k < |s| && s[k] == '>' then k + 1 else 0
  }

  /** `t` as a whole is `<br`, a run of `\s`, an optional `/`, then `>`: the language of
      `<br\s*\/?>`, written independently of `BrMatch`. */
  predicate BrForm(t: string) {
    |t| >= 4 && t[..3] == "<br" && t[|t| - 1] == '>'
    && forall i :: 3 <= i < |t| - 1 ==> IsJsSpace(t[i]) || (i == |t| - 2 && t[i] == '/')
  }

  /** `BrMatch` finds a match exactly when some prefix of `s` is in the language of
      `<br\s*\/?>`, and that prefix is unique and `BrMatch(s)` long. */
  lemma BrMatchIff(s: string)
    ensures BrMatch(s) > 0 ==> BrForm(s[..BrMatch(s)])
    ensures forall m :: 0 < m <= |s| && BrForm(s[..m]) ==> m == BrMatch(s)
  {
    var n := BrMatch(s);
    if n > 0 {
      var j := 3 + SpaceRun(s[3..]);
      forall i | 3 <= i < n - 1 ensures IsJsSpace(s[..n][i]) || (i == n - 2 && s[..n][i] == '/') {
        if i < j { assert s[3..][i - 3] == s[i]; }
      }
    }
    forall m | 0 < m <= |s| && BrForm(s[..m]) ensures m == n {
      assert s[..3] == s[..m][..3];
      var j := 3 + SpaceRun(s[3..]);
      assert s[..m][m - 1] == '>';
      if j < m - 1 {
        assert s[3..][j - 3] == s[j];
        assert s[..m][j] == s[j];
      }
    }
  }

  function Br2Nl(s: string): string
    decreases |s|
  {
    if s == [] then []
    else if BrMatch(s) > 0 then "\n" + Br2Nl(s[BrMatch(s)..])
    else [s[0]] + Br2Nl(s[1..])
  }

  predicate NoAngle(s: string) {
    forall i :: 0 <= i < |s| ==> s[i] != '<'
  }

  lemma Br2NlBr(rest: string)
    ensures Br2Nl(Br + rest) == "\n" + Br2Nl(rest)
  {
    var t := Br + rest;
    assert StartsWith(t, "<br");
    assert t[3..][0] == ' ' && t[3..][1] == '/';
    assert SpaceRun(t[3..]) == 1;
    assert BrMatch(t) == 6;
    assert t[6..] == rest;
  }

  lemma Br2NlPlain(c: char, rest: string)
    requires c != '<'
    ensures Br2Nl([c] + rest) == [c] + Br2Nl(rest)
  {
    var t := [c] + rest;
    assert BrMatch(t) == 0;
    assert t[1..] == rest;
  }

  /** For text without `<`, br2nl undoes nl2br up to line-break normalisation: every
      `\r\n`, `\n` and `\r` comes back as `\n`. */
  lemma {:induction false} Br2NlAfterNl2Br(s: string)
    requires NoAngle(s)
    ensures Br2Nl(Nl2Br(s)) == NormalizeNewlines(s)
    decreases |s|
  {
    if s != [] {
      var k := if |s| >= 2 && s[0] == '\r' && s[1] == '\n' then 2 else 1;
      assert NoAngle(s[k..]) by {
        forall i | 0 <= i < |s[k..]| ensures s[k..][i] != '<' { assert s[k..][i] == s[i + k]; }
      }
      Br2NlAfterNl2Br(s[k..]);
      if s[0] == '\n' || s[0] == '\r' {
        assert Nl2Br(s) == Br + Nl2Br(s[k..]);
        assert NormalizeNewlines(s) == "\n" + NormalizeNewlines(s[k..]);
        Br2NlBr(Nl2Br(s[k..]));
      } else {
        assert Nl2Br(s) == [s[0]] + Nl2Br(s[k..]);
        assert NormalizeNewlines(s) == [s[0]] + NormalizeNewlines(s[k..]);
        Br2NlPlain(s[0], Nl2Br(s[k..]));
      }
    }
  }

  /** Text without `<` or `\r` survives nl2br followed by br2nl unchanged. */
  lemma {:induction false} Br2NlNl2BrIdentity(s: string)
    requires NoAngle(s)
    requires forall i :: 0 <= i < |s| ==> s[i] != '\r'
    ensures Br2Nl(Nl2Br(s)) == s
  {
    Br2NlAfterNl2Br(s);
    NormalizeNewlinesFixesLf(s);
  }

  lemma {:induction false} NormalizeNewlinesFixesLf(s: string)
    requires forall i :: 0 <= i < |s| ==> s[i] != '\r'
    ensures NormalizeNewlines(s) == s
    decreases |s|
  {
    if s != [] {
      NormalizeNewlinesFixesLf(s[1..]);
    }
  }

  // ---------------------------------------------------------------------------
  // truncate(str, maxLen): maxLength = maxLen || 100; longer strings keep their first
  // maxLength - 8 characters (String.prototype.substr clamps a negative length to 0)
  // followed by '&hellip;'.

  function Truncate(str: string, maxLen: Option<int>): (r: string)
    ensures var maxLength := if maxLen == None || maxLen == Some(0) then TruncationLength else maxLen.value;
      && (|str| <= maxLength ==> r == str)
      && (|str| > maxLength && maxLength >= |Ellipsis| ==>
            |r| == maxLength && r == str[..maxLength - |Ellipsis|] + Ellipsis)
      && (|str| > maxLength && maxLength < |Ellipsis| ==> r == Ellipsis)
  {
    var maxLength := if maxLen == None || maxLen == Some(0) then TruncationLength else maxLen.value;
    if |str| > maxLength then
      var keep := if maxLength - |Ellipsis| < 0 then 0 else maxLength - |Ellipsis|;
      str[..keep] + Ellipsis
    else str
  }
}
