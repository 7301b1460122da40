/** Model of o2.Dom's class-name helpers (o2.dom.class.js). An element's `className`
    is a space-separated list; a class `c` is looked up with the regular expression
    `(\s|^)c(\s|$)`, restated here as a matcher that tries each start position in turn,
    and `removeClass` rewrites the leftmost match of that expression to a single blank. */
module DomClass {
  import opened Common

  /** A DOM element, reduced to the one field these helpers read and rewrite. A missing
      element (`$(el)` falsy) is `null`. */
  class Element {
    var className: string

    constructor(className: string)
      ensures this.className == className
    {
      this.className := className;
    }
  }

  const Blank: char := ' '

  /** Characters with a meaning of their own inside a regular expression. */
  predicate IsRegExpSpecial(ch: char) {
    ch in "\\^$.|?*+()[]{}"
  }

  /** A class name that, spliced into the pattern, matches itself literally: non-empty,
      free of white space (so it is one class) and of special characters. */
  predicate ValidClassName(c: string) {
    |c| > 0 && forall i :: 0 <= i < |c| ==> !IsJsSpace(c[i]) && !IsRegExpSpecial(c[i])
  }

  // ---------------------------------------------------------------------------
  // The regular expression (\s|^)c(\s|$)

  /** `c(\s|$)` tried at position `q`: the end of the match when it succeeds. */
  function RestMatch(s: string, c: string, q: nat): (e: Option<nat>)
    ensures e.Some? ==> q + |c| <= e.value <= |s|
  {
    if q + |c| <= |s| && s[q..q + |c|] == c then
      if q + |c| < |s| && IsJsSpace(s[q + |c|]) then Some(q + |c| + 1)
      else if q + |c| == |s| then Some(q + |c|)
      else None
    else None
  }

  /** The whole expression tried at start position `p`: the `\s` alternative first, then
      `^` (which holds only at 0), backtracking from the first to the second. */
  function MatchAt(s: string, c: string, p: nat): (e: Option<nat>)
    requires p <= |s|
    ensures e.Some? ==> p <= e.value <= |s|
  {
    if p < |s| && IsJsSpace(s[p]) && RestMatch(s, c, p + 1).Some? then RestMatch(s, c, p + 1)
    else if p == 0 then RestMatch(s, c, 0)
    else None
  }

  /** The leftmost match starting at or after `p`, as (start, end). */
  function FirstMatch(s: string, c: string, p: nat): (m: Option<(nat, nat)>)
    requires p <= |s|
    ensures m.Some? ==> p <= m.value.0 <= m.value.1 <= |s| && MatchAt(s, c, m.value.0) == Some(m.value.1)
    ensures m.Some? ==> forall q :: p <= q < m.value.0 ==> MatchAt(s, c, q).None?
    ensures m.None? ==> forall q :: p <= q <= |s| ==> MatchAt(s, c, q).None?
    decreases |s| - p
  {
    match MatchAt(s, c, p)
    case Some(e) => Some((p, e))
    case None => if p == |s| then None else FirstMatch(s, c, p + 1)
  }

  /** `RegExp.prototype.test`. */
  predicate Test(s: string, c: string) {
    FirstMatch(s, c, 0).Some?
  }

  /** `String.prototype.replace` with a non-global expression: the leftmost match, bounding
      white space included, gives way to `with`. */
  function ReplaceFirst(s: string, c: string, with: string): string {
    match FirstMatch(s, c, 0)
    case None => s
    case Some((b, e)) => s[..b] + with + s[e..]
  }

  // ---------------------------------------------------------------------------
  // What the expression means

  /** `c` occurs at `i`, with white space or an end of the string on either side. */
  predicate BoundedAt(s: string, c: string, i: int) {
    0 <= i && i + |c| <= |s| && s[i..i + |c|] == c
    && (i == 0 || IsJsSpace(s[i - 1]))
    && (i + |c| == |s| || IsJsSpace(s[i + |c|]))
  }

  /** `c` is one of the classes listed in `s`. */
  ghost predicate Listed(s: string, c: string) {
    exists i :: BoundedAt(s, c, i)
  }

  /** `c` is listed at most once. */
  ghost predicate AtMostOnce(s: string, c: string) {
    forall i, j :: BoundedAt(s, c, i) && BoundedAt(s, c, j) ==> i == j
  }

  /** A match from `b` to `e` covers exactly one bounded occurrence `q` of `c`, together with
      the white space before it (unless it starts the string) and the one after it (unless
      it ends the string). */
  lemma MatchOccurrence(s: string, c: string, b: nat, e: nat) returns (q: nat)
    requires b <= |s| && MatchAt(s, c, b) == Some(e)
    ensures BoundedAt(s, c, q)
    ensures (q == b + 1 && IsJsSpace(s[b])) || (q == 0 && b == 0)
    ensures (e == q + |c| + 1 && IsJsSpace(s[q + |c|])) || e == q + |c| == |s|
  {
    if b < |s| && IsJsSpace(s[b]) && RestMatch(s, c, b + 1).Some? {
      q := b + 1;
    } else {
      q := 0;
    }
  }

  /** `test` is true exactly when the class is listed. */
  lemma TestIff(s: string, c: string)
    ensures Test(s, c) <==> Listed(s, c)
  {
    if Test(s, c) {
      var m := FirstMatch(s, c, 0).value;
      var q := MatchOccurrence(s, c, m.0, m.1);
      assert BoundedAt(s, c, q);
    }
    if Listed(s, c) {
      var i :| BoundedAt(s, c, i);
      if i == 0 {
        assert MatchAt(s, c, 0).Some?;
      } else {
        assert RestMatch(s, c, i).Some?;
        assert MatchAt(s, c, i - 1).Some?;
      }
    }
  }

  // ---------------------------------------------------------------------------
  // hasClass, addClass, removeClass, toggleClass

  /** hasClass(el, c): false for a missing element, otherwise whether `c` is listed. The
      source splices `c` into the pattern unescaped, so only plain class names are meant. */
  function HasClass(el: Element?, c: string): (r: bool)
    requires ValidClassName(c)
    reads el
    ensures r <==> el != null && Listed(el.className, c)
  {
    if el == null then false
    else
      TestIff(el.className, c);
      Test(el.className, c)
  }

  /** The class name `addClass` leaves behind. */
  function Added(s: string, c: string): string {
    if Test(s, c) then s else s + [Blank] + c
  }

  /** The class name `removeClass` leaves behind. */
  function Removed(s: string, c: string): string {
    if !Test(s, c) then s else ReplaceFirst(s, c, [Blank])
  }

  /** addClass(el, c): nothing for a missing element or a class already listed; otherwise
      `" " + c` is appended. */
  method AddClass(el: Element?, c: string)
    requires ValidClassName(c)
    modifies el
    ensures el != null ==> el.className == Added(old(el.className), c)
  {
    if el == null {
      return;
    }
    if HasClass(el, c) {
      return;
    }
    el.className := el.className + [Blank] + c;
  }

  /** removeClass(el, c): nothing for a missing element or an unlisted class; otherwise the
      leftmost listing, with its bounding white space, becomes one blank. */
  method RemoveClass(el: Element?, c: string)
    requires ValidClassName(c)
    modifies el
    ensures el != null ==> el.className == Removed(old(el.className), c)
  {
    if el == null {
      return;
    }
    if !HasClass(el, c) {
      return;
    }
    el.className := ReplaceFirst(el.className, c, [Blank]);
  }

  /** The class name `toggleClass` leaves behind; `state` is `None` when not given and
      otherwise carries its truthiness. */
  function Toggled(s: string, c: string, state: Option<bool>): string {
    match state
    case Some(on) => if on then Added(s, c) else Removed(s, c)
    case None => if Test(s, c) then Removed(s, c) else Added(s, c)
  }

  /** toggleClass(el, c, state): a given `state` picks addClass or removeClass; without it the
      class is removed when listed and added otherwise. */
  method ToggleClass(el: Element?, c: string, state: Option<bool>)
    requires ValidClassName(c)
    modifies el
    ensures el != null ==> el.className == Toggled(old(el.className), c, state)
  {
    if state.Some? {
      if state.value {
        AddClass(el, c);
        return;
      }
      RemoveClass(el, c);
      return;
    }
    if HasClass(el, c) {
      RemoveClass(el, c);
      return;
    }
    AddClass(el, c);
  }

  // ---------------------------------------------------------------------------
  // Properties

  /** After addClass the class is listed. */
  lemma AddedListed(s: string, c: string)
    ensures Listed(Added(s, c), c)
  {
    TestIff(s, c);
    if !Test(s, c) {
      var t := s + [Blank] + c;
      assert t[|s| + 1..|s| + 1 + |c|] == c;
      assert BoundedAt(t, c, |s| + 1);
    }
  }

  /** addClass is idempotent. */
  lemma AddedIdempotent(s: string, c: string)
    ensures Added(Added(s, c), c) == Added(s, c)
  {
    AddedListed(s, c);
    TestIff(Added(s, c), c);
  }

  /** addClass keeps every class already listed. */
  lemma AddedKeeps(s: string, c: string, d: string)
    requires Listed(s, d)
    ensures Listed(Added(s, c), d)
  {
    if !Test(s, c) {
      var i :| BoundedAt(s, d, i);
      var t := s + [Blank] + c;
      assert t[i..i + |d|] == s[i..i + |d|];
      assert BoundedAt(t, d, i);
    }
  }

  /** Character `k` of the string `removeClass` writes, read off the original. */
  lemma ReplacedAt(s: string, b: nat, e: nat, k: nat)
    requires b <= e <= |s| && k < |s[..b] + [Blank] + s[e..]|
    ensures var r := s[..b] + [Blank] + s[e..];
      (k < b ==> r[k] == s[k]) && (k == b ==> r[k] == Blank) && (k > b ==> r[k] == s[k - b - 1 + e])
  {
  }

  /** A listing in the string `removeClass` writes lies wholly before or wholly after the
      blank it put in, because a valid class name has no white space. */
  lemma ListingAvoidsBlank(s: string, c: string, b: nat, e: nat, i: nat)
    requires ValidClassName(c) && b <= e <= |s|
    requires BoundedAt(s[..b] + [Blank] + s[e..], c, i)
    ensures i + |c| <= b || i > b
  {
    var r := s[..b] + [Blank] + s[e..];
    if i <= b < i + |c| {
      ReplacedAt(s, b, e, b);
    }
  }

  /** Where the listing sits in the original string: at the same place before the blank,
      shifted by the removed span after it. */
  lemma ListingCopied(s: string, c: string, b: nat, e: nat, i: nat, j: nat)
    requires b <= e <= |s|
    requires BoundedAt(s[..b] + [Blank] + s[e..], c, i)
    requires (i + |c| <= b && j == i) || (i > b && j == i - b - 1 + e)
    ensures j + |c| <= |s| && s[j..j + |c|] == c
  {
    var r := s[..b] + [Blank] + s[e..];
    forall t | 0 <= t < |c| ensures s[j + t] == c[t] {
      ReplacedAt(s, b, e, i + t);
      assert r[i..i + |c|][t] == r[i + t];
    }
  }

  /** A listing before the blank was a listing of the original, ahead of the removed one. */
  lemma ListingBefore(s: string, c: string, b: nat, e: nat, q: nat, i: nat)
    requires ValidClassName(c) && b <= e <= |s| && MatchAt(s, c, b) == Some(e)
    requires (q == b + 1 && IsJsSpace(s[b])) || (q == 0 && b == 0)
    requires BoundedAt(s[..b] + [Blank] + s[e..], c, i) && i + |c| <= b
    ensures BoundedAt(s, c, i) && i != q
  {
    var r := s[..b] + [Blank] + s[e..];
    ListingCopied(s, c, b, e, i, i);
    ReplacedAt(s, b, e, i + |c|);
    if i > 0 { ReplacedAt(s, b, e, i - 1); }
  }

  /** A listing after the blank was a listing of the original, behind the removed one. */
  lemma ListingAfter(s: string, c: string, b: nat, e: nat, q: nat, i: nat)
    requires ValidClassName(c) && b <= e <= |s|
    requires BoundedAt(s, c, q) && q <= e
    requires (e == q + |c| + 1 && IsJsSpace(s[q + |c|])) || e == q + |c| == |s|
    requires BoundedAt(s[..b] + [Blank] + s[e..], c, i) && i > b
    ensures BoundedAt(s, c, i - b - 1 + e) && i - b - 1 + e != q
  {
    var r := s[..b] + [Blank] + s[e..];
    var j := i - b - 1 + e;
    ListingCopied(s, c, b, e, i, j);
    ReplacedAt(s, b, e, i - 1);
    if i + |c| < |r| { ReplacedAt(s, b, e, i + |c|); }
  }

  /** Removing a class listed once leaves it unlisted. */
  lemma RemovedUnlisted(s: string, c: string)
    requires ValidClassName(c) && AtMostOnce(s, c)
    ensures !Listed(Removed(s, c), c)
  {
    if !Test(s, c) {
      TestIff(s, c);
    } else {
      var m := FirstMatch(s, c, 0).value;
      var b, e := m.0, m.1;
      var q := MatchOccurrence(s, c, b, e);
      var r := s[..b] + [Blank] + s[e..];
      assert r == Removed(s, c);
      if i :| BoundedAt(r, c, i) {
        ListingAvoidsBlank(s, c, b, e, i);
        if i + |c| <= b {
          ListingBefore(s, c, b, e, q, i);
        } else {
          ListingAfter(s, c, b, e, q, i);
        }
      }
    }
  }

  /** A class listed twice survives one removeClass: `"a b a"` becomes `" b a"`. */
  lemma SecondListingSurvives()
    ensures Removed("a b a", "a") == " b a"
    ensures Listed(" b a", "a")
  {
    assert RestMatch("a b a", "a", 0) == Some(2);
    assert MatchAt("a b a", "a", 0) == Some(2);
    assert BoundedAt(" b a", "a", 3);
  }

  /** Without a state, toggleClass flips whether a class listed at most once is listed. */
  lemma ToggleFlips(s: string, c: string)
    requires ValidClassName(c) && AtMostOnce(s, c)
    ensures Listed(Toggled(s, c, None), c) <==> !Listed(s, c)
  {
    TestIff(s, c);
    if Test(s, c) {
      RemovedUnlisted(s, c);
    } else {
      AddedListed(s, c);
    }
  }
}
