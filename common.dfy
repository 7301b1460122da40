/** Small helpers shared by the models of the o2.js utility modules:
    an optional value, JavaScript's notion of white space, and ASCII case mapping. */
module Common {

  datatype Option<+T> = None | Some(value: T)

  /** The characters JavaScript's regular-expression class `\s` matches
      (WhiteSpace and LineTerminator of ECMAScript 5.1). */
  predicate IsJsSpace(c: char) {
    c == ' ' || c == '\t' || c == '\n' || c == '\r' || c == '\U{000B}' || c == '\U{000C}'
    || c == '\U{00A0}' || c == '\U{FEFF}' || c == '\U{1680}'
    || ('\U{2000}' <= c <= '\U{200A}')
    || c == '\U{2028}' || c == '\U{2029}' || c == '\U{202F}' || c == '\U{205F}' || c == '\U{3000}'
  }

  predicate IsAsciiUpper(c: char) { 'A' <= c <= 'Z' }
  predicate IsAsciiLower(c: char) { 'a' <= c <= 'z' }
  predicate IsAsciiDigit(c: char) { '0' <= c <= '9' }
  predicate IsAsciiLetter(c: char) { IsAsciiUpper(c) || IsAsciiLower(c) }

  function ToUpperAscii(c: char): (u: char)
    ensures IsAsciiLower(c) ==> IsAsciiUpper(u)
    ensures !IsAsciiLower(c) ==> u == c
  {
    if IsAsciiLower(c) then (c as int - 32) as char else c
  }

  function ToLowerAscii(c: char): (l: char)
    ensures IsAsciiUpper(c) ==> IsAsciiLower(l)
    ensures !IsAsciiUpper(c) ==> l == c
  {
    if IsAsciiUpper(c) then (c as int + 32) as char else c
  }

  /** `String.prototype.toLowerCase`, restricted to ASCII letters. */
  function LowerString(s: string): (r: string)
    ensures |r| == |s|
    ensures forall i :: 0 <= i < |s| ==> r[i] == ToLowerAscii(s[i])
  {
    if s == [] then [] else [ToLowerAscii(s[0])] + LowerString(s[1..])
  }

  /** The decimal digits of a natural number, as `String(n)` prints it. */
  function NatToString(n: nat): (r: string)
    ensures |r| >= 1
    ensures forall i :: 0 <= i < |r| ==> IsAsciiDigit(r[i])
    decreases n
  {
    if n < 10 then [('0' as int + n) as char]
    else NatToString(n / 10) + [('0' as int + n % 10) as char]
  }

  /** `s` starts with `p`. */
  predicate StartsWith(s: string, p: string) {
    |p| <= |s| && s[..|p|] == p
  }

  /** `String.prototype.split` on a one-character separator: the pieces between separators,
      in order; the empty string gives one empty piece. */
  function Split(s: string, d: char): (r: seq<string>)
    ensures |r| >= 1
  {
    if s == [] then [""]
    else if s[0] == d then [""] + Split(s[1..], d)
    else var rest := Split(s[1..], d); [[s[0]] + rest[0]] + rest[1..]
  }

  predicate Lacks(s: string, d: char) {
    forall i :: 0 <= i < |s| ==> s[i] != d
  }

  /** A separator-free prefix joins the first piece of what follows. */
  lemma {:induction false} SplitPrefix(a: string, t: string, d: char)
    requires Lacks(a, d)
    ensures Split(a + t, d) == [a + Split(t, d)[0]] + Split(t, d)[1..]
  {
    if a != [] {
      SplitPrefix(a[1..], t, d);
      assert (a + t)[0] == a[0] && (a + t)[1..] == a[1..] + t;
      var rest := Split(a[1..] + t, d);
      assert rest[0] == a[1..] + Split(t, d)[0] && rest[1..] == Split(t, d)[1..];
      assert [a[0]] + rest[0] == a + Split(t, d)[0];
    } else {
      assert a + t == t && a + Split(t, d)[0] == Split(t, d)[0];
      assert Split(t, d) == [Split(t, d)[0]] + Split(t, d)[1..];
    }
  }

  /** Splitting `a + d + t` for a separator-free `a` gives `a` and then the pieces of `t`. */
  lemma SplitAtFirst(a: string, t: string, d: char)
    requires Lacks(a, d)
    ensures Split(a + [d] + t, d) == [a] + Split(t, d)
  {
    var u := [d] + t;
    SplitPrefix(a, u, d);
    assert u[0] == d && u[1..] == t;
    assert Split(u, d) == [""] + Split(t, d);
    assert Split(u, d)[0] == "" && Split(u, d)[1..] == Split(t, d);
    assert a + "" == a;
    assert a + [d] + t == a + u;
  }

  /** A string without the separator is one piece. */
  lemma SplitWhole(a: string, d: char)
    requires Lacks(a, d)
    ensures Split(a, d) == [a]
  {
    SplitPrefix(a, [], d);
    assert a + [] == a;
  }

  /** `Array.prototype.join` with a one-character separator. */
  function Join(parts: seq<string>, d: char): (r: string)
    requires |parts| >= 1
    decreases |parts|
  {
    if |parts| == 1 then parts[0] else parts[0] + [d] + Join(parts[1..], d)
  }

  /** Joining separator-free parts and splitting the result gives the parts back. */
  lemma {:induction false} SplitJoin(parts: seq<string>, d: char)
    requires |parts| >= 1
    requires forall i :: 0 <= i < |parts| ==> Lacks(parts[i], d)
    ensures Split(Join(parts, d), d) == parts
    decreases |parts|
  {
    if |parts| == 1 {
      SplitWhole(parts[0], d);
    } else {
      SplitJoin(parts[1..], d);
      SplitAtFirst(parts[0], Join(parts[1..], d), d);
      assert parts == [parts[0]] + parts[1..];
    }
  }

  /** Appending a separator and a separator-free piece appends one piece. */
  lemma {:induction false} SplitAppend(s: string, x: string, d: char)
    requires Lacks(x, d)
    ensures Split(s + [d] + x, d) == Split(s, d) + [x]
  {
    if s == [] {
      assert s + [d] + x == [d] + x;
      SplitWhole(x, d);
      assert ([d] + x)[1..] == x;
    } else {
      SplitAppend(s[1..], x, d);
      assert (s + [d] + x)[0] == s[0] && (s + [d] + x)[1..] == s[1..] + [d] + x;
      var rest := Split(s[1..] + [d] + x, d);
      var inner := Split(s[1..], d);
      assert rest == inner + [x];
      if s[0] != d {
        assert rest[0] == inner[0] && rest[1..] == inner[1..] + [x];
      }
    }
  }
}
