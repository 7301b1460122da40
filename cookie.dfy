/** Model of o2.Cookie (o2.cookie.core.js): reading a value out of a `document.cookie`
    string, assembling the string `save` writes, and `remove`. The cookie string and the
    expiry date text (`toGMTString` of now plus `days`) are parameters; the write to
    `document.cookie` is the returned string. */
module Cookie {
  import opened Common

  const Blank: char := ' '
  const Separator: char := ';'
  const RootPath: string := "/"

  // ---------------------------------------------------------------------------
  // The encoders save uses.

  /** Characters `encodeURIComponent` leaves alone. */
  predicate IsUriUnreserved(c: char) {
    IsAsciiLetter(c) || IsAsciiDigit(c) || c in "-_.!~*'()"
  }

  /** Characters `escape` leaves alone. */
  predicate IsEscapeUnreserved(c: char) {
    IsAsciiLetter(c) || IsAsciiDigit(c) || c in "@*_+-./"
  }

  predicate IsUpperHex(c: char) {
    IsAsciiDigit(c) || 'A' <= c <= 'F'
  }

  function HexDigit(n: nat): (c: char)
    requires n < 16
    ensures IsUpperHex(c)
  {
    if n < 10 then ('0' as int + n) as char else ('A' as int + n - 10) as char
  }

  /** `%XX` for one byte. */
  function PercentByte(b: nat): (r: string)
    requires b < 256
    ensures |r| == 3 && r[0] == '%' && IsUpperHex(r[1]) && IsUpperHex(r[2])
  {
    ['%', HexDigit(b / 16), HexDigit(b % 16)]
  }

  /** The UTF-8 bytes of a code point. */
  function Utf8(cp: nat): (r: seq<nat>)
    requires cp <= 0x10FFFF
    ensures 1 <= |r| <= 4
    ensures forall i :: 0 <= i < |r| ==> r[i] < 256
  {
    if cp < 0x80 then [cp]
    else if cp < 0x800 then [0xC0 + cp / 64, 0x80 + cp % 64]
    else if cp < 0x10000 then [0xE0 + cp / 4096, 0x80 + (cp / 64) % 64, 0x80 + cp % 64]
    else [0xF0 + cp / 262144, 0x80 + (cp / 4096) % 64, 0x80 + (cp / 64) % 64, 0x80 + cp % 64]
  }

  function PercentBytes(bytes: seq<nat>): (r: string)
    requires forall i :: 0 <= i < |bytes| ==> bytes[i] < 256
    ensures forall i :: 0 <= i < |r| ==> r[i] == '%' || IsUpperHex(r[i])
  {
    if bytes == [] then [] else PercentByte(bytes[0]) + PercentBytes(bytes[1..])
  }

  /** `encodeURIComponent`: unreserved characters stay, every other character becomes the
      percent-encoded bytes of its UTF-8 form. */
  function EncodeURIComponent(s: string): (r: string)
    ensures forall i :: 0 <= i < |r| ==> IsUriUnreserved(r[i]) || r[i] == '%' || IsUpperHex(r[i])
  {
    if s == [] then []
    else (if IsUriUnreserved(s[0]) then [s[0]] else PercentBytes(Utf8(s[0] as int))) + EncodeURIComponent(s[1..])
  }

  /** Four upper-case hex digits. */
  function Hex4(n: nat): (r: string)
    requires n < 0x10000
    ensures |r| == 4 && forall i :: 0 <= i < 4 ==> IsUpperHex(r[i])
  {
    [HexDigit(n / 4096), HexDigit((n / 256) % 16), HexDigit((n / 16) % 16), HexDigit(n % 16)]
  }

  /** `escape` of one character: `%XX` below 256, `%uXXXX` for each UTF-16 code unit above. */
  function EscapeChar(c: char): (r: string)
    ensures forall i :: 0 <= i < |r| ==> IsEscapeUnreserved(r[i]) || r[i] == '%' || r[i] == 'u' || IsUpperHex(r[i])
  {
    var cp := c as int;
    if IsEscapeUnreserved(c) then [c]
    else if cp < 256 then PercentByte(cp)
    else if cp < 0x10000 then "%u" + Hex4(cp)
    else "%u" + Hex4(0xD800 + (cp - 0x10000) / 1024) + "%u" + Hex4(0xDC00 + (cp - 0x10000) % 1024)
  }

  function Escape(s: string): (r: string)
    ensures forall i :: 0 <= i < |r| ==> IsEscapeUnreserved(r[i]) || r[i] == '%' || r[i] == 'u' || IsUpperHex(r[i])
  {
    if s == [] then [] else EscapeChar(s[0]) + Escape(s[1..])
  }

  /** Unreserved text passes through `encodeURIComponent` unchanged. */
  lemma {:induction false} EncodeUnreserved(s: string)
    requires forall i :: 0 <= i < |s| ==> IsUriUnreserved(s[i])
    ensures EncodeURIComponent(s) == s
  {
    if s != [] {
      EncodeUnreserved(s[1..]);
      assert s == [s[0]] + s[1..];
    }
  }

  // ---------------------------------------------------------------------------
  // read

  /** `while (c.charAt(0) === ' ') c = c.substring(1)`. */
  function StripBlanks(c: string): (r: string)
    ensures |r| <= |c|
    ensures r == [] || r[0] != Blank
  {
    if c != [] && c[0] == Blank then StripBlanks(c[1..]) else c
  }

  /** Stripping removes exactly the leading blanks: what is dropped is all blanks, and what
      is kept is the rest of `c`, starting at its first non-blank. */
  lemma {:induction false} StripBlanksDropsLeading(c: string)
    ensures var r := StripBlanks(c);
      r == c[|c| - |r|..] && forall i :: 0 <= i < |c| - |r| ==> c[i] == Blank
  {
    if c != [] && c[0] == Blank {
      StripBlanksDropsLeading(c[1..]);
      var r := StripBlanks(c);
      forall i | 0 <= i < |c| - |r| ensures c[i] == Blank {
        if i > 0 { assert c[1..][i - 1] == c[i]; }
      }
    }
  }

  /** `c.substring(eq.length + 1, c.length)`: one character past the name is skipped,
      whatever it is; `substring` clamps a start beyond the end to the end. */
  function ValueAfter(c: string, eq: string): string
  {
    if |eq| + 1 <= |c| then c[|eq| + 1..] else ""
  }

  /** The value `read` finds among the segments: the first that, stripped of leading
      blanks, starts with the name. */
  function ReadFrom(segments: seq<string>, eq: string): Option<string>
  {
    if segments == [] then None
    else
      var c := StripBlanks(segments[0]);
      if StartsWith(c, eq) then Some(ValueAfter(c, eq)) else ReadFrom(segments[1..], eq)
  }

  predicate Matches(segment: string, eq: string) {
    StartsWith(StripBlanks(segment), eq)
  }

  /** `read(name)` on the cookie string `cookie`; `eq` is `decodeURIComponent(name)`. */
  method Read(cookie: string, eq: string) returns (r: Option<string>)
    ensures r == ReadFrom(Split(cookie, Separator), eq)
  {
    var ca := Split(cookie, Separator);
    var i := 0;
    while i < |ca|
      invariant 0 <= i <= |ca|
      invariant ReadFrom(ca[i..], eq) == ReadFrom(ca, eq)
    {
      var c := ca[i];
      while |c| > 0 && c[0] == Blank
        invariant StripBlanks(c) == StripBlanks(ca[i])
        decreases |c|
      {
        c := c[1..];
      }
      if StartsWith(c, eq) {
        return Some(ValueAfter(c, eq));
      }
      assert ca[i..][1..] == ca[i + 1..];
      i := i + 1;
    }
    return None;
  }

  /** `read` answers `null` exactly when no segment matches. */
  lemma {:induction false} ReadFromNone(segments: seq<string>, eq: string)
    ensures ReadFrom(segments, eq).None? <==> forall i :: 0 <= i < |segments| ==> !Matches(segments[i], eq)
  {
    if segments != [] {
      ReadFromNone(segments[1..], eq);
      assert forall i :: 1 <= i < |segments| ==> segments[i] == segments[1..][i - 1];
    }
  }

  /** `read` answers with the value of the first matching segment. */
  lemma {:induction false} ReadFromFirst(segments: seq<string>, eq: string, i: nat)
    requires i < |segments| && Matches(segments[i], eq)
    requires forall j :: 0 <= j < i ==> !Matches(segments[j], eq)
    ensures ReadFrom(segments, eq) == Some(ValueAfter(StripBlanks(segments[i]), eq))
  {
    if i > 0 {
      ReadFromFirst(segments[1..], eq, i - 1);
    }
  }

  /** No `=` is looked for: the name `a` reads the cookie `ab=1` as `=1`. */
  lemma ReadIgnoresEquals()
    ensures ReadFrom(Split("ab=1", Separator), "a") == Some("=1")
  {
    SplitWhole("ab=1", Separator);
    assert StripBlanks("ab=1") == "ab=1";
    assert "ab=1"[..1] == "a";
  }

  // ---------------------------------------------------------------------------
  // save and remove

  /** `s` followed by `"; "` and an attribute; `save` appends every attribute this way. */
  function Attach(s: string, attr: string): string {
    s + [Separator] + attr
  }

  /** `Attach` when `present`, `s` unchanged otherwise (an optional attribute). */
  function AttachIf(s: string, present: bool, attr: string): string {
    if present then Attach(s, attr) else s
  }

  /** The string `save(name, value, days, path, domain, isSecure)` writes. `days` is falsy
      when 0, `path` and `domain` when empty; `expiry` is the date text for `days`. The
      attributes follow in the source's order: expires, path (default `/`), domain, secure. */
  function SaveString(name: string, value: string, days: int, expiry: string,
                      path: string, domain: string, isSecure: bool): string
  {
    var pair := EncodeURIComponent(name) + "=" + EncodeURIComponent(value);
    var base := AttachIf(pair, days != 0, " expires=" + expiry);
    var cookieString := Attach(base, " path=" + Escape(if path != "" then path else RootPath));
    var withDomain := AttachIf(cookieString, domain != "", " domain=" + Escape(domain));
    AttachIf(withDomain, isSecure, " secure")
  }

  /** The segments of the string `save` writes: `name=value`, then the attributes, in order. */
  function SaveSegments(name: string, value: string, days: int, expiry: string,
                        path: string, domain: string, isSecure: bool): seq<string> {
    [EncodeURIComponent(name) + "=" + EncodeURIComponent(value)]
    + (if days != 0 then [" expires=" + expiry] else [])
    + [" path=" + Escape(if path != "" then path else RootPath)]
    + (if domain != "" then [" domain=" + Escape(domain)] else [])
    + (if isSecure then [" secure"] else [])
  }

  lemma EncodedLacksSeparator(s: string)
    ensures Lacks(EncodeURIComponent(s), Separator) && Lacks(Escape(s), Separator)
  {
    var e := EncodeURIComponent(s);
    var x := Escape(s);
    forall i | 0 <= i < |e| ensures e[i] != Separator {
      assert IsUriUnreserved(e[i]) || e[i] == '%' || IsUpperHex(e[i]);
    }
    forall i | 0 <= i < |x| ensures x[i] != Separator {
      assert IsEscapeUnreserved(x[i]) || x[i] == '%' || x[i] == 'u' || IsUpperHex(x[i]);
    }
  }

  lemma LacksConcat(a: string, b: string, d: char)
    requires Lacks(a, d) && Lacks(b, d)
    ensures Lacks(a + b, d)
  {
    forall i | 0 <= i < |a + b| ensures (a + b)[i] != d {
      if i >= |a| {
        assert (a + b)[i] == b[i - |a|];
      }
    }
  }

  /** The encoded `name=value` pair is a single segment. */
  lemma PairSplits(name: string, value: string)
    ensures Split(EncodeURIComponent(name) + "=" + EncodeURIComponent(value), Separator)
      == [EncodeURIComponent(name) + "=" + EncodeURIComponent(value)]
  {
    EncodedLacksSeparator(name);
    EncodedLacksSeparator(value);
    LacksConcat(EncodeURIComponent(name), "=", Separator);
    LacksConcat(EncodeURIComponent(name) + "=", EncodeURIComponent(value), Separator);
    SplitWhole(EncodeURIComponent(name) + "=" + EncodeURIComponent(value), Separator);
  }

  /** An attribute `key` followed by an escaped value carries no `;`. */
  lemma EscapedLacksSeparator(key: string, s: string)
    requires Lacks(key, Separator)
    ensures Lacks(key + Escape(s), Separator)
  {
    EncodedLacksSeparator(s);
    LacksConcat(key, Escape(s), Separator);
  }

  /** Appending an attribute free of `;` adds exactly one segment. */
  lemma AttachIfSplits(s: string, present: bool, attr: string)
    requires Lacks(attr, Separator)
    ensures Split(AttachIf(s, present, attr), Separator)
      == Split(s, Separator) + (if present then [attr] else [])
  {
    if present {
      SplitAppend(s, attr, Separator);
    }
  }

  /** The saved string splits on `;` into `name=value` followed by exactly the attributes
      asked for: `expires` only when `days` is truthy, `path` always (default `/`), `domain`
      and `secure` only when given. */
  lemma SaveStringSplits(name: string, value: string, days: int, expiry: string,
                         path: string, domain: string, isSecure: bool)
    requires Lacks(expiry, Separator)
    ensures Split(SaveString(name, value, days, expiry, path, domain, isSecure), Separator)
      == SaveSegments(name, value, days, expiry, path, domain, isSecure)
  {
    var pair := EncodeURIComponent(name) + "=" + EncodeURIComponent(value);
    PairSplits(name, value);
    LacksConcat(" expires=", expiry, Separator);
    AttachIfSplits(pair, days != 0, " expires=" + expiry);
    var base := AttachIf(pair, days != 0, " expires=" + expiry);

    var cookiePath := if path != "" then path else RootPath;
    EscapedLacksSeparator(" path=", cookiePath);
    AttachIfSplits(base, true, " path=" + Escape(cookiePath));
    var cookieString := Attach(base, " path=" + Escape(cookiePath));

    EscapedLacksSeparator(" domain=", domain);
    AttachIfSplits(cookieString, domain != "", " domain=" + Escape(domain));
    var withDomain := AttachIf(cookieString, domain != "", " domain=" + Escape(domain));

    AttachIfSplits(withDomain, isSecure, " secure");
  }

  /** `remove(name, path, domain)`: save an empty value with `days = -1`, so the cookie
      carries an `expires` attribute (in the past) and the default path `/`. */
  function Remove(name: string, expiry: string, path: string, domain: string): (r: string)
    requires Lacks(expiry, Separator)
    ensures Split(r, Separator) == [EncodeURIComponent(name) + "=", " expires=" + expiry,
      " path=" + Escape(if path != "" then path else RootPath)] + (if domain != "" then [" domain=" + Escape(domain)] else [])
  {
    SaveStringSplits(name, "", -1, expiry, if path != "" then path else RootPath, domain, false);
    assert EncodeURIComponent("") == "";
    assert EncodeURIComponent(name) + "=" + "" == EncodeURIComponent(name) + "=";
    SaveString(name, "", -1, expiry, if path != "" then path else RootPath, domain, false)
  }

  /** Reading back a cookie that leads the cookie string gives the ENCODED value: `save`
      encodes it and `read` does not decode. */
  lemma ReadAfterSave(name: string, value: string, rest: string)
    requires |name| > 0 && forall i :: 0 <= i < |name| ==> IsUriUnreserved(name[i])
    ensures ReadFrom(Split(name + "=" + EncodeURIComponent(value) + [Separator] + rest, Separator), name)
      == Some(EncodeURIComponent(value))
  {
    EncodeUnreserved(name);
    var pair := name + "=" + EncodeURIComponent(value);
    EncodedLacksSeparator(name);
    EncodedLacksSeparator(value);
    LacksConcat(name, "=", Separator);
    LacksConcat(name + "=", EncodeURIComponent(value), Separator);
    SplitAtFirst(pair, rest, Separator);
    assert StripBlanks(pair) == pair;
    assert pair[..|name|] == name;
    assert pair[|name| + 1..] == EncodeURIComponent(value);
  }

  /** For example a value with a blank comes back as `a%20b`. */
  lemma ReadReturnsEncoded()
    ensures EncodeURIComponent("a b") == "a%20b"
  {
    assert Utf8(' ' as int) == [32];
    assert PercentByte(32) == "%20";
    assert HexDigit(2) == '2' && HexDigit(0) == '0';
    assert PercentBytes([32]) == "%20";
    assert EncodeURIComponent("b") == "b";
    assert " b"[1..] == "b" && "a b"[1..] == " b";
    assert EncodeURIComponent(" b") == "%20" + "b";
  }
}
