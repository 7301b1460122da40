/** Model of the traversal core of o2.DomHelper (o2.domhelper.traverse.js): the `filter`
    loop over a node list, the `getParents` walk up the tree, `getChildNodes`, `execFilter`,
    the node predicates handed to them as delegates, and the public helpers built on them.

    The document is a map from node references to their data. Each delegate is called with
    an argument array into which the loop has already unshifted every node it handed to that
    delegate before, so its second and later parameters shift with each call; the model
    keeps that argument array exactly as the loop builds it. */
module DomTraverse {
  import opened Common

  type NodeRef = nat

  /** `nodeType` of a text node. */
  const TextNode := 3

  /** What the traversal reads of a node. `depth` is the node's distance from the root,
      which makes the parent relation well-founded. */
  datatype NodeData = NodeData(
    nodeType: int, nodeName: string, className: string, id: string,
    attributes: map<string, string>, parent: Option<NodeRef>, childNodes: seq<NodeRef>,
    depth: nat)

  type Dom = map<NodeRef, NodeData>

  ghost predicate AllIn(dom: Dom, s: seq<NodeRef>) {
    forall k :: 0 <= k < |s| ==> s[k] in dom
  }

  /** A parent is a node of the document one level nearer the root. */
  ghost predicate ParentAbove(dom: Dom, n: NodeRef)
    requires n in dom
  {
    dom[n].parent.Some? ==> dom[n].parent.value in dom && dom[dom[n].parent.value].depth < dom[n].depth
  }

  /** `n` is a node of `dom`; `WellFormed` speaks of a node only once this is mentioned,
      so that a parent's parent is not unfolded without end. */
  ghost predicate Member(dom: Dom, n: NodeRef) {
    n in dom
  }

  ghost predicate WellFormed(dom: Dom) {
    forall n {:trigger Member(dom, n)} :: Member(dom, n) ==> ParentAbove(dom, n) && AllIn(dom, dom[n].childNodes)
  }

  /** A node of a well-formed document has its parent above it and its children in it. */
  lemma NodeWellFormed(dom: Dom, n: NodeRef)
    requires WellFormed(dom) && n in dom
    ensures ParentAbove(dom, n) && AllIn(dom, dom[n].childNodes)
  {
    assert Member(dom, n);
  }

  // ---------------------------------------------------------------------------
  // Arguments and delegates

  /** An entry of a delegate's argument array. */
  datatype Arg = NodeArg(node: NodeRef) | StrArg(text: string) | Undefined

  /** `itemsCountCap` or `returnSingleItemAt` as passed: undefined, null or a number. */
  datatype JsNum = Undef | Null | Num(n: int)

  /** `isNaN(x)`: undefined converts to NaN, null to 0. */
  predicate IsNaN(x: JsNum) {
    x.Undef?
  }

  function ToNumber(x: JsNum): int
    requires !IsNaN(x)
  {
    if x.Null? then 0 else x.n
  }

  /** `x === counter`: only a number is identical to the counter. */
  predicate Identical(x: JsNum, counter: int) {
    x.Num? && x.n == counter
  }

  /** How many nodes a cap lets into the result: it is compared only after a node has been
      pushed, so a cap of 0 or less (null included) still lets one through. */
  function CapLimit(cap: JsNum): (r: int)
    requires !IsNaN(cap)
    ensures r >= 1 && r >= ToNumber(cap)
  {
    if ToNumber(cap) < 1 then 1 else ToNumber(cap)
  }

  function ArgAt(args: seq<Arg>, k: nat): Arg {
    if k < |args| then args[k] else Undefined
  }

  /** The string `indexOf` looks for: undefined reads as "undefined"; a node's string form
      is not modelled and matches nothing. */
  function ArgText(a: Arg): Option<string> {
    match a
    case StrArg(t) => Some(t)
    case Undefined => Some("undefined")
    case NodeArg(_) => None
  }

  predicate OccursAt(s: string, t: string, i: int) {
    0 <= i && i + |t| <= |s| && s[i..i + |t|] == t
  }

  /** `s.indexOf(t) > -1`. */
  predicate ContainsText(s: string, t: string) {
    exists i | 0 <= i <= |s| - |t| :: OccursAt(s, t, i)
  }

  /** getAttribute(node, name): the value, or `None` (undefined) when the node has no such
      attribute or the name is not a string. DomHelper's own `getAttribute` is not part of
      this model; answering undefined, not null, for a missing attribute is an assumption. */
  function GetAttribute(dom: Dom, node: NodeRef, name: Arg): Option<string>
    requires node in dom
  {
    if name.StrArg? && name.text in dom[node].attributes then Some(dom[node].attributes[name.text]) else None
  }

  /** The node predicates the traversal helpers pass as delegates. */
  datatype Delegate =
    | IsNodeEquals      // (node, until): the same node
    | HasClassName      // (node, name): `className.indexOf(name) > -1`
    | IsAttributeEquals // (node, attribute, value): getAttribute(node, attribute) === value
    | HasAttribute      // (node, attribute): getAttribute(node, attribute) !== undefined
    | HasClassAttribute // (node): a non-empty className
    | HasIdAttribute    // (node): a non-empty id

  /** What delegate `d` answers for `node` with the positional arguments `args`, where
      `args[0]` is the node itself. */
  predicate Answer(dom: Dom, d: Delegate, node: NodeRef, args: seq<Arg>)
    requires node in dom
  {
    match d
    case IsNodeEquals => ArgAt(args, 1) == NodeArg(node)
    case HasClassName =>
      ArgText(ArgAt(args, 1)).Some? && ContainsText(dom[node].className, ArgText(ArgAt(args, 1)).value)
    case IsAttributeEquals =>
      (match ArgAt(args, 2)
       case StrArg(t) => GetAttribute(dom, node, ArgAt(args, 1)) == Some(t)
       case Undefined => GetAttribute(dom, node, ArgAt(args, 1)).None?
       case NodeArg(_) => false)
    case HasAttribute => GetAttribute(dom, node, ArgAt(args, 1)).Some?
    case HasClassAttribute => dom[node].className != ""
    case HasIdAttribute => dom[node].id != ""
  }

  /** `delegate.apply(node, args)` once the node has been unshifted into `args`. */
  predicate Accepts(dom: Dom, d: Delegate, args: seq<Arg>) {
    |args| > 0 && args[0].NodeArg? && args[0].node in dom && Answer(dom, d, args[0].node, args)
  }

  /** `args` after unshifting each node of `nodes`, first to last. */
  function Unshifted(nodes: seq<NodeRef>, args: seq<Arg>): (r: seq<Arg>)
    ensures |r| == |nodes| + |args|
  {
    if nodes == [] then args
    else [NodeArg(nodes[|nodes| - 1])] + Unshifted(nodes[..|nodes| - 1], args)
  }

  /** Entry `k` of the unshifted array: the nodes, last first, then the original arguments. */
  lemma {:induction false} UnshiftedAt(nodes: seq<NodeRef>, args: seq<Arg>, k: nat)
    requires k < |nodes| + |args|
    ensures Unshifted(nodes, args)[k] == if k < |nodes| then NodeArg(nodes[|nodes| - 1 - k]) else args[k - |nodes|]
  {
    if nodes != [] && k > 0 {
      UnshiftedAt(nodes[..|nodes| - 1], args, k - 1);
    }
  }

  lemma UnshiftAppend(s: seq<NodeRef>, x: NodeRef, args: seq<Arg>)
    ensures Unshifted(s + [x], args) == [NodeArg(x)] + Unshifted(s, args)
  {
    assert (s + [x])[..|s|] == s;
  }

  // ---------------------------------------------------------------------------
  // The selection the loops perform

  /** Which nodes reach the filter delegate: `filter` skips text nodes; `getParents` keeps
      nodes whose name matches `name` ignoring case, or every node when `name` is falsy. */
  datatype Gate = SkipText | NamedAs(name: string) | Every

  predicate Eligible(dom: Dom, g: Gate, n: NodeRef) {
    n in dom &&
    match g
    case SkipText => dom[n].nodeType != TextNode
    case NamedAs(name) => LowerString(dom[n].nodeName) == LowerString(name)
    case Every => true
  }

  /** The nodes of `s` that pass the gate, in order. */
  ghost function EligibleNodes(dom: Dom, g: Gate, s: seq<NodeRef>): (r: seq<NodeRef>)
    ensures |r| <= |s| && AllIn(dom, r)
  {
    if s == [] then []
    else EligibleNodes(dom, g, s[..|s| - 1]) + (if Eligible(dom, g, s[|s| - 1]) then [s[|s| - 1]] else [])
  }

  lemma EligibleStep(dom: Dom, g: Gate, s: seq<NodeRef>, i: nat)
    requires i < |s|
    ensures EligibleNodes(dom, g, s[..i + 1]) == EligibleNodes(dom, g, s[..i]) + (if Eligible(dom, g, s[i]) then [s[i]] else [])
  {
    assert s[..i + 1][..i] == s[..i];
  }

  /** Membership in the gated list: exactly the nodes of `s` that pass the gate. */
  lemma {:induction false} EligibleMembers(dom: Dom, g: Gate, s: seq<NodeRef>, x: NodeRef)
    ensures x in EligibleNodes(dom, g, s) <==> x in s && Eligible(dom, g, x)
  {
    if s != [] {
      EligibleMembers(dom, g, s[..|s| - 1], x);
      assert s == s[..|s| - 1] + [s[|s| - 1]];
    }
  }

  /** The parameters of one `filter` or `getParents` call. */
  datatype Query = Query(
    gate: Gate, filterBy: Option<Delegate>, filterArgs: seq<Arg>,
    breakOn: Option<Delegate>, breakArgs: seq<Arg>, cap: JsNum, single: JsNum)

  /** The break delegate's arguments at node `i`: every node up to and including it. */
  ghost function BreakArgsAt(q: Query, cache: seq<NodeRef>, i: nat): seq<Arg>
    requires i < |cache|
  {
    Unshifted(cache[..i + 1], q.breakArgs)
  }

  /** The filter delegate's arguments at node `i`: the eligible nodes before it, then it. */
  ghost function FilterArgsAt(dom: Dom, q: Query, cache: seq<NodeRef>, i: nat): seq<Arg>
    requires i < |cache|
  {
    [NodeArg(cache[i])] + Unshifted(EligibleNodes(dom, q.gate, cache[..i]), q.filterArgs)
  }

  ghost predicate StopsAt(dom: Dom, q: Query, cache: seq<NodeRef>, i: nat)
    requires i < |cache|
  {
    q.breakOn.Some? && Accepts(dom, q.breakOn.value, BreakArgsAt(q, cache, i))
  }

  ghost predicate AcceptedAt(dom: Dom, q: Query, cache: seq<NodeRef>, i: nat)
    requires i < |cache|
  {
    Eligible(dom, q.gate, cache[i])
    && (q.filterBy.None? || Accepts(dom, q.filterBy.value, FilterArgsAt(dom, q, cache, i)))
  }

  /** The first node, from `i` on, at which the break delegate fires, or the end. */
  ghost function FirstStop(dom: Dom, q: Query, cache: seq<NodeRef>, i: nat): (j: nat)
    requires i <= |cache|
    ensures i <= j <= |cache|
    decreases |cache| - i
  {
    if i == |cache| then |cache|
    else if StopsAt(dom, q, cache, i) then i
    else FirstStop(dom, q, cache, i + 1)
  }

  /** The walk stops at the first node the break delegate fires at, and only there. */
  lemma {:induction false} FirstStopIsFirst(dom: Dom, q: Query, cache: seq<NodeRef>, i: nat)
    requires i <= |cache|
    ensures var j := FirstStop(dom, q, cache, i);
      (j < |cache| ==> StopsAt(dom, q, cache, j)) && forall k :: i <= k < j ==> !StopsAt(dom, q, cache, k)
    decreases |cache| - i
  {
    if i < |cache| && !StopsAt(dom, q, cache, i) {
      FirstStopIsFirst(dom, q, cache, i + 1);
    }
  }

  /** The nodes among the first `n` that pass the gate and the filter delegate, in order. */
  ghost function Accepted(dom: Dom, q: Query, cache: seq<NodeRef>, n: nat): seq<NodeRef>
    requires n <= |cache|
  {
    if n == 0 then []
    else Accepted(dom, q, cache, n - 1) + (if AcceptedAt(dom, q, cache, n - 1) then [cache[n - 1]] else [])
  }

  /** The positions in `cache` of the accepted nodes: increasing, so visit order is kept. */
  ghost function AcceptedPositions(dom: Dom, q: Query, cache: seq<NodeRef>, n: nat): (p: seq<nat>)
    requires n <= |cache|
    ensures |p| == |Accepted(dom, q, cache, n)|
    ensures forall k :: 0 <= k < |p| ==>
      p[k] < n && AcceptedAt(dom, q, cache, p[k]) && Accepted(dom, q, cache, n)[k] == cache[p[k]]
    ensures forall j, k :: 0 <= j < k < |p| ==> p[j] < p[k]
  {
    if n == 0 then []
    else AcceptedPositions(dom, q, cache, n - 1) + (if AcceptedAt(dom, q, cache, n - 1) then [n - 1] else [])
  }

  lemma {:induction false} AcceptedPrefix(dom: Dom, q: Query, cache: seq<NodeRef>, m: nat, n: nat)
    requires m <= n <= |cache|
    ensures |Accepted(dom, q, cache, m)| <= |Accepted(dom, q, cache, n)|
    ensures Accepted(dom, q, cache, n)[..|Accepted(dom, q, cache, m)|] == Accepted(dom, q, cache, m)
    decreases n - m
  {
    if m < n {
      AcceptedPrefix(dom, q, cache, m, n - 1);
      var a := Accepted(dom, q, cache, n - 1);
      var extra := if AcceptedAt(dom, q, cache, n - 1) then [cache[n - 1]] else [];
      assert (a + extra)[..|Accepted(dom, q, cache, m)|] == a[..|Accepted(dom, q, cache, m)|];
    }
  }

  /** What `filter` (with `nullAtEnd`) or `getParents` answers: the accepted nodes before
      the first node the break delegate fires at, cut to the cap; or the `single`-th of
      those as a node; or null when `filter` was asked for a single node it did not reach. */
  datatype Found = Nodes(nodes: seq<NodeRef>) | One(node: NodeRef) | NullNode

  ghost function Select(dom: Dom, q: Query, cache: seq<NodeRef>, nullAtEnd: bool): Found {
    var acc := Accepted(dom, q, cache, FirstStop(dom, q, cache, 0));
    var taken := if IsNaN(q.cap) || |acc| <= CapLimit(q.cap) then acc else acc[..CapLimit(q.cap)];
    if q.single.Num? && 1 <= q.single.n <= |taken| then One(taken[q.single.n - 1])
    else if nullAtEnd && !IsNaN(q.single) then NullNode
    else Nodes(taken)
  }

  /** The answer is a prefix of the accepted nodes no longer than the cap (all of them
      without a cap), or the `single`-th accepted node, or null only when asked for one. */
  lemma SelectShape(dom: Dom, q: Query, cache: seq<NodeRef>, nullAtEnd: bool)
    ensures var acc := Accepted(dom, q, cache, FirstStop(dom, q, cache, 0));
      match Select(dom, q, cache, nullAtEnd)
      case Nodes(ns) => |ns| <= |acc| && ns == acc[..|ns|] && (!IsNaN(q.cap) ==> |ns| <= CapLimit(q.cap))
        && (IsNaN(q.cap) ==> ns == acc)
      case One(x) => q.single.Num? && 1 <= q.single.n <= |acc| && x == acc[q.single.n - 1]
      case NullNode => nullAtEnd && !IsNaN(q.single)
  {
  }

  // ---------------------------------------------------------------------------
  // The loop invariant shared by `filter` and `getParents`, and its steps

  /** After the first `i` nodes without an exit: no break yet, `result` holds the accepted
      nodes, the single item was not reached and the cap not hit. */
  ghost predicate Progress(dom: Dom, q: Query, cache: seq<NodeRef>, i: nat, result: seq<NodeRef>) {
    i <= |cache|
    && FirstStop(dom, q, cache, 0) == FirstStop(dom, q, cache, i)
    && result == Accepted(dom, q, cache, i)
    && !(q.single.Num? && 1 <= q.single.n <= |result|)
    && (IsNaN(q.cap) || |result| < CapLimit(q.cap))
  }

  /** The loop invariant: progress so far, and each argument array holds the nodes unshifted
      into it, the break array every node, the filter array every node past the gate. */
  ghost predicate Walk(dom: Dom, q: Query, cache: seq<NodeRef>, i: nat, result: seq<NodeRef>,
                       fArgs: seq<Arg>, bArgs: seq<Arg>) {
    Progress(dom, q, cache, i, result)
    && (q.breakOn.Some? ==> bArgs == Unshifted(cache[..i], q.breakArgs))
    && (q.filterBy.Some? ==> fArgs == Unshifted(EligibleNodes(dom, q.gate, cache[..i]), q.filterArgs))
  }

  /** The loop's break test at node `i`, on the break array it holds before that node. */
  ghost predicate BreakFires(dom: Dom, q: Query, cache: seq<NodeRef>, i: nat, bArgs: seq<Arg>)
    requires i < |cache|
  {
    q.breakOn.Some? && Accepts(dom, q.breakOn.value, [NodeArg(cache[i])] + bArgs)
  }

  /** The loop's gate and filter test at node `i`, on the filter array it holds before. */
  ghost predicate Passes(dom: Dom, q: Query, cache: seq<NodeRef>, i: nat, fArgs: seq<Arg>)
    requires i < |cache|
  {
    Eligible(dom, q.gate, cache[i])
    && (q.filterBy.None? || Accepts(dom, q.filterBy.value, [NodeArg(cache[i])] + fArgs))
  }

  /** The argument arrays at node `i`: unshifting the node gives what the delegates are
      called with, and what the filter array holds afterwards. */
  lemma StepArgs(dom: Dom, q: Query, cache: seq<NodeRef>, i: nat, fArgs: seq<Arg>, bArgs: seq<Arg>)
    requires i < |cache|
    requires q.breakOn.Some? ==> bArgs == Unshifted(cache[..i], q.breakArgs)
    requires q.filterBy.Some? ==> fArgs == Unshifted(EligibleNodes(dom, q.gate, cache[..i]), q.filterArgs)
    ensures BreakFires(dom, q, cache, i, bArgs) <==> StopsAt(dom, q, cache, i)
    ensures Passes(dom, q, cache, i, fArgs) <==> AcceptedAt(dom, q, cache, i)
    ensures q.breakOn.Some? ==> [NodeArg(cache[i])] + bArgs == Unshifted(cache[..i + 1], q.breakArgs)
    ensures q.filterBy.Some? ==> (Unshifted(EligibleNodes(dom, q.gate, cache[..i + 1]), q.filterArgs)
      == if Eligible(dom, q.gate, cache[i]) then [NodeArg(cache[i])] + fArgs else fArgs)
  {
    assert cache[..i + 1] == cache[..i] + [cache[i]];
    UnshiftAppend(cache[..i], cache[i], q.breakArgs);
    EligibleStep(dom, q.gate, cache, i);
    var e := EligibleNodes(dom, q.gate, cache[..i]);
    if Eligible(dom, q.gate, cache[i]) {
      UnshiftAppend(e, cache[i], q.filterArgs);
      assert EligibleNodes(dom, q.gate, cache[..i + 1]) == e + [cache[i]];
    } else {
      assert EligibleNodes(dom, q.gate, cache[..i + 1]) == e;
    }
  }

  /** The loop ran out of nodes, or the break delegate fired at node `i`. */
  lemma Exhausted(dom: Dom, q: Query, cache: seq<NodeRef>, i: nat, result: seq<NodeRef>,
                  fArgs: seq<Arg>, bArgs: seq<Arg>, nullAtEnd: bool)
    requires Walk(dom, q, cache, i, result, fArgs, bArgs)
    requires i == |cache| || (i < |cache| && BreakFires(dom, q, cache, i, bArgs))
    ensures Select(dom, q, cache, nullAtEnd) == if nullAtEnd && !IsNaN(q.single) then NullNode else Nodes(result)
  {
    if i < |cache| {
      StepArgs(dom, q, cache, i, fArgs, bArgs);
    }
    assert FirstStop(dom, q, cache, i) == i;
  }

  /** Node `i` was accepted and was the `single`-th. */
  lemma SingleHit(dom: Dom, q: Query, cache: seq<NodeRef>, i: nat, before: seq<NodeRef>,
                  fArgs: seq<Arg>, bArgs: seq<Arg>, nullAtEnd: bool)
    requires Walk(dom, q, cache, i, before, fArgs, bArgs) && i < |cache|
    requires !BreakFires(dom, q, cache, i, bArgs) && Passes(dom, q, cache, i, fArgs)
    requires q.single == Num(|before| + 1)
    ensures Select(dom, q, cache, nullAtEnd) == One(cache[i])
  {
    StepArgs(dom, q, cache, i, fArgs, bArgs);
    assert FirstStop(dom, q, cache, i) == FirstStop(dom, q, cache, i + 1);
    assert Accepted(dom, q, cache, i + 1) == before + [cache[i]];
    AcceptedPrefix(dom, q, cache, i + 1, FirstStop(dom, q, cache, 0));
  }

  /** Node `i` was accepted, pushed, and filled the cap. */
  lemma CapHit(dom: Dom, q: Query, cache: seq<NodeRef>, i: nat, before: seq<NodeRef>,
               fArgs: seq<Arg>, bArgs: seq<Arg>, nullAtEnd: bool)
    requires Walk(dom, q, cache, i, before, fArgs, bArgs) && i < |cache|
    requires !BreakFires(dom, q, cache, i, bArgs) && Passes(dom, q, cache, i, fArgs)
    requires !Identical(q.single, |before| + 1)
    requires !IsNaN(q.cap) && ToNumber(q.cap) <= |before| + 1
    ensures Select(dom, q, cache, nullAtEnd)
      == if nullAtEnd && !IsNaN(q.single) then NullNode else Nodes(before + [cache[i]])
  {
    StepArgs(dom, q, cache, i, fArgs, bArgs);
    assert FirstStop(dom, q, cache, i) == FirstStop(dom, q, cache, i + 1);
    assert Accepted(dom, q, cache, i + 1) == before + [cache[i]];
    AcceptedPrefix(dom, q, cache, i + 1, FirstStop(dom, q, cache, 0));
  }

  /** Node `i` was handled without leaving the loop: the invariant holds one node on, with
      the node unshifted into the arrays the loop unshifts it into. */
  lemma Advance(dom: Dom, q: Query, cache: seq<NodeRef>, i: nat, before: seq<NodeRef>,
                fArgs: seq<Arg>, bArgs: seq<Arg>, accepted: bool)
    requires Walk(dom, q, cache, i, before, fArgs, bArgs) && i < |cache|
    requires !BreakFires(dom, q, cache, i, bArgs) && accepted == Passes(dom, q, cache, i, fArgs)
    requires accepted ==> !Identical(q.single, |before| + 1)
    requires accepted ==> IsNaN(q.cap) || ToNumber(q.cap) > |before| + 1
    ensures Walk(dom, q, cache, i + 1, if accepted then before + [cache[i]] else before,
      if q.filterBy.Some? && Eligible(dom, q.gate, cache[i]) then [NodeArg(cache[i])] + fArgs else fArgs,
      if q.breakOn.Some? then [NodeArg(cache[i])] + bArgs else bArgs)
  {
    StepArgs(dom, q, cache, i, fArgs, bArgs);
    assert FirstStop(dom, q, cache, i) == FirstStop(dom, q, cache, i + 1);
  }

  /** How one pass of the loop body ends: the break delegate fired, the node was the
      `single`-th accepted, the node filled the cap, or the loop goes on. */
  datatype Exit = BreakHit | SingleFound | CapFilled | Continue

  /** The loop body `filter` and `getParents` share, for node `i` of the walk: the break
      test, then (when the node passed the caller's gate test, `eligible`) the filter test,
      the count, the single-item test, the push and the cap test. */
  method VisitNode(dom: Dom, q: Query, ghost cache: seq<NodeRef>, ghost i: nat, node: NodeRef,
                   eligible: bool, result: seq<NodeRef>, counter: int, fArgs: seq<Arg>, bArgs: seq<Arg>)
    returns (exit: Exit, result': seq<NodeRef>, counter': int, fArgs': seq<Arg>, bArgs': seq<Arg>)
    requires i < |cache| && node == cache[i] && eligible == Eligible(dom, q.gate, node)
    requires Walk(dom, q, cache, i, result, fArgs, bArgs) && counter == |result|
    ensures exit == BreakHit ==> result' == result && forall nullAtEnd: bool ::
      Select(dom, q, cache, nullAtEnd) == if nullAtEnd && !IsNaN(q.single) then NullNode else Nodes(result)
    ensures exit == SingleFound ==> forall nullAtEnd: bool :: Select(dom, q, cache, nullAtEnd) == One(node)
    ensures exit == CapFilled ==> forall nullAtEnd: bool ::
      Select(dom, q, cache, nullAtEnd) == if nullAtEnd && !IsNaN(q.single) then NullNode else Nodes(result')
    ensures exit == Continue ==> Walk(dom, q, cache, i + 1, result', fArgs', bArgs') && counter' == |result'|
  {
    result', counter', fArgs', bArgs' := result, counter, fArgs, bArgs;
    if q.breakOn.Some? {
      bArgs' := [NodeArg(node)] + bArgs';
      if Accepts(dom, q.breakOn.value, bArgs') {
        forall nullAtEnd: bool ensures Select(dom, q, cache, nullAtEnd)
          == if nullAtEnd && !IsNaN(q.single) then NullNode else Nodes(result) {
          Exhausted(dom, q, cache, i, result, fArgs, bArgs, nullAtEnd);
        }
        return BreakHit, result', counter', fArgs', bArgs';
      }
    }
    var accepted := false;
    if eligible {
      accepted := true;
      if q.filterBy.Some? {
        fArgs' := [NodeArg(node)] + fArgs';
        accepted := Accepts(dom, q.filterBy.value, fArgs');
      }
      if accepted {
        counter' := counter' + 1;
        if !IsNaN(q.single) && Identical(q.single, counter') {
          forall nullAtEnd: bool ensures Select(dom, q, cache, nullAtEnd) == One(node) {
            SingleHit(dom, q, cache, i, result, fArgs, bArgs, nullAtEnd);
          }
          return SingleFound, result', counter', fArgs', bArgs';
        }
        result' := result' + [node];
        if !IsNaN(q.cap) && ToNumber(q.cap) <= counter' {
          forall nullAtEnd: bool ensures Select(dom, q, cache, nullAtEnd)
            == if nullAtEnd && !IsNaN(q.single) then NullNode else Nodes(result') {
            CapHit(dom, q, cache, i, result, fArgs, bArgs, nullAtEnd);
          }
          return CapFilled, result', counter', fArgs', bArgs';
        }
      }
    }
    Advance(dom, q, cache, i, result, fArgs, bArgs, accepted);
    return Continue, result', counter', fArgs', bArgs';
  }

  // ---------------------------------------------------------------------------
  // filter

  /** `nodes` reversed, as `filter` copies them when `isReverse` is set. */
  function Reversed(s: seq<NodeRef>): (r: seq<NodeRef>)
    ensures |r| == |s|
  {
    if s == [] then [] else Reversed(s[1..]) + [s[0]]
  }

  /** The `k`-th node visited in reverse is the `k`-th from the end. */
  lemma {:induction false} ReversedAt(s: seq<NodeRef>, k: nat)
    requires k < |s|
    ensures Reversed(s)[k] == s[|s| - 1 - k]
  {
    if k < |s| - 1 {
      ReversedAt(s[1..], k);
    }
  }

  lemma ReversedIn(dom: Dom, s: seq<NodeRef>)
    requires AllIn(dom, s)
    ensures AllIn(dom, Reversed(s))
  {
    forall k | 0 <= k < |s| ensures Reversed(s)[k] in dom {
      ReversedAt(s, k);
    }
  }

  /** The order `filter` visits the nodes in. */
  function Visit(nodes: seq<NodeRef>, isReverse: bool): seq<NodeRef> {
    if isReverse then Reversed(nodes) else nodes
  }

  lemma VisitIn(dom: Dom, s: seq<NodeRef>, isReverse: bool)
    requires AllIn(dom, s)
    ensures AllIn(dom, Visit(s, isReverse))
  {
    if isReverse {
      ReversedIn(dom, s);
    }
  }

  /** The node list `filter` walks: when `isReverse` is set, a copy pushed from the last
      node down to the first; otherwise `nodes` itself. */
  method VisitCopy(ns: seq<NodeRef>, isReverse: bool) returns (cache: seq<NodeRef>)
    ensures cache == Visit(ns, isReverse)
  {
    if !isReverse {
      return ns;
    }
    cache := [];
    var j := |ns|;
    while j > 0
      invariant 0 <= j <= |ns| && cache == Reversed(ns[j..])
    {
      j := j - 1;
      assert ns[j..][1..] == ns[j + 1..];
      cache := cache + [ns[j]];
    }
    assert ns[0..] == ns;
  }

  /** filter(nodes, filterDelegate, filterArgs, breakDelegate, breakArgs, itemsCountCap,
      returnSingleItemAt, isReverse). Missing `nodes` give `[]`. */
  method Filter(dom: Dom, nodes: Option<seq<NodeRef>>, filterBy: Option<Delegate>, filterArgs: seq<Arg>,
                breakOn: Option<Delegate>, breakArgs: seq<Arg>, itemsCountCap: JsNum,
                returnSingleItemAt: JsNum, isReverse: bool) returns (r: Found)
    requires nodes.Some? ==> AllIn(dom, nodes.value)
    ensures nodes.None? ==> r == Nodes([])
    ensures nodes.Some? ==> r == Select(dom,
      Query(SkipText, filterBy, filterArgs, breakOn, breakArgs, itemsCountCap, returnSingleItemAt),
      Visit(nodes.value, isReverse), true)
  {
    if nodes.None? {
      return Nodes([]);
    }
    var cache := VisitCopy(nodes.value, isReverse);
    VisitIn(dom, nodes.value, isReverse);
    var q := Query(SkipText, filterBy, filterArgs, breakOn, breakArgs, itemsCountCap, returnSingleItemAt);
    var result: seq<NodeRef> := [];
    var fArgs := filterArgs;
    var bArgs := breakArgs;
    var counter := 0;
    var i := 0;
    while i < |cache|
      invariant i <= |cache| && Walk(dom, q, cache, i, result, fArgs, bArgs) && counter == |result|
    {
      var node := cache[i];
      var exit;
      exit, result, counter, fArgs, bArgs :=
        VisitNode(dom, q, cache, i, node, dom[node].nodeType != TextNode, result, counter, fArgs, bArgs);
      if exit == SingleFound {
        return One(node);
      } else if exit != Continue {
        break;
      }
      i := i + 1;
    }
    if i == |cache| {
      Exhausted(dom, q, cache, i, result, fArgs, bArgs, true);
    }
    if !IsNaN(returnSingleItemAt) {
      return NullNode;
    }
    return Nodes(result);
  }

  // ---------------------------------------------------------------------------
  // getParents

  /** `t`, its parent, its grandparent, ... up to the root. */
  ghost function Chain(dom: Dom, t: Option<NodeRef>): (r: seq<NodeRef>)
    requires WellFormed(dom) && (t.Some? ==> t.value in dom)
    ensures AllIn(dom, r)
    decreases if t.Some? then dom[t.value].depth + 1 else 0
  {
    if t.None? then [] else NodeWellFormed(dom, t.value); [t.value] + Chain(dom, dom[t.value].parent)
  }

  /** The ancestors of `n`, nearest first. */
  ghost function Ancestors(dom: Dom, n: NodeRef): seq<NodeRef>
    requires WellFormed(dom) && n in dom
  {
    NodeWellFormed(dom, n);
    Chain(dom, dom[n].parent)
  }

  /** The node at position `k` of a chain, if any. */
  function NodeAt(c: seq<NodeRef>, k: nat): Option<NodeRef> {
    if k < |c| then Some(c[k]) else None
  }

  /** Each node of a chain is in the document and its parent is the next node, or missing
      after the last. */
  lemma {:induction false} ChainNext(dom: Dom, t: Option<NodeRef>, k: nat)
    requires WellFormed(dom) && (t.Some? ==> t.value in dom)
    requires k < |Chain(dom, t)|
    ensures var c := Chain(dom, t); c[k] in dom && dom[c[k]].parent == NodeAt(c, k + 1)
    decreases if t.Some? then dom[t.value].depth + 1 else 0
  {
    NodeWellFormed(dom, t.value);
    var p := dom[t.value].parent;
    if k > 0 {
      ChainNext(dom, p, k - 1);
    } else if p.Some? {
      NodeWellFormed(dom, p.value);
    }
  }

  /** `ChainNext` for the ancestors of `e`. */
  lemma AncestorStep(dom: Dom, e: NodeRef, k: nat)
    requires WellFormed(dom) && e in dom && k < |Ancestors(dom, e)|
    ensures var a := Ancestors(dom, e); a[k] in dom && dom[a[k]].parent == NodeAt(a, k + 1)
  {
    NodeWellFormed(dom, e);
    ChainNext(dom, dom[e].parent, k);
  }

  /** The gate `getParents` applies for `name`. */
  function NameGate(name: string): Gate {
    if name != "" then NamedAs(name) else Every
  }

  /** getParents(elm, filterDelegate, filterArgs, breakDelegate, breakArgs, name,
      itemsCountCap, returnSingleItemAt): walks from `elm`'s parent to the root; unlike
      `filter` it answers the list, never null, when the single item is not reached.
      A missing `elm` gives `[]`. */
  method GetParents(dom: Dom, elm: Option<NodeRef>, filterBy: Option<Delegate>, filterArgs: seq<Arg>,
                    breakOn: Option<Delegate>, breakArgs: seq<Arg>, name: string, itemsCountCap: JsNum,
                    returnSingleItemAt: JsNum) returns (r: Found)
    requires WellFormed(dom) && (elm.Some? ==> elm.value in dom)
    ensures elm.None? ==> r == Nodes([])
    ensures elm.Some? ==> r == Select(dom,
      Query(NameGate(name), filterBy, filterArgs, breakOn, breakArgs, itemsCountCap, returnSingleItemAt),
      Ancestors(dom, elm.value), false)
  {
    if elm.None? {
      return Nodes([]);
    }
    var q := Query(NameGate(name), filterBy, filterArgs, breakOn, breakArgs, itemsCountCap, returnSingleItemAt);
    ghost var cache := Ancestors(dom, elm.value);
    var result: seq<NodeRef> := [];
    var counter := 0;
    var fArgs := filterArgs;
    var bArgs := breakArgs;
    NodeWellFormed(dom, elm.value);
    var target := dom[elm.value].parent;
    ghost var i := 0;
    while target.Some?
      invariant i <= |cache| && target == NodeAt(cache, i)
      invariant Walk(dom, q, cache, i, result, fArgs, bArgs) && counter == |result|
      decreases |cache| - i
    {
      var node := target.value;
      AncestorStep(dom, elm.value, i);
      var exit;
      exit, result, counter, fArgs, bArgs :=
        VisitNode(dom, q, cache, i, node, name == "" || LowerString(dom[node].nodeName) == LowerString(name),
                  result, counter, fArgs, bArgs);
      if exit == SingleFound {
        return One(node);
      } else if exit != Continue {
        break;
      }
      target := dom[node].parent;
      i := i + 1;
    }
    if target.None? {
      Exhausted(dom, q, cache, i, result, fArgs, bArgs, false);
    }
    return Nodes(result);
  }

  // ---------------------------------------------------------------------------
  // getChildNodes and execFilter

  /** What getChildNodes(elm, name) answers: the children, or with a truthy `name` those
      whose node name equals it ignoring case, in order. */
  ghost function ChildNodes(dom: Dom, elm: Option<NodeRef>, name: string): seq<NodeRef>
    requires WellFormed(dom) && (elm.Some? ==> elm.value in dom)
  {
    if elm.None? then []
    else if name != "" then EligibleNodes(dom, NamedAs(name), dom[elm.value].childNodes)
    else dom[elm.value].childNodes
  }

  method GetChildNodes(dom: Dom, elm: Option<NodeRef>, name: string) returns (r: seq<NodeRef>)
    requires WellFormed(dom) && (elm.Some? ==> elm.value in dom)
    ensures r == ChildNodes(dom, elm, name)
  {
    if elm.None? {
      return [];
    }
    NodeWellFormed(dom, elm.value);
    var items := dom[elm.value].childNodes;
    if name != "" {
      r := [];
      var i := 0;
      while i < |items|
        invariant i <= |items| && r == EligibleNodes(dom, NamedAs(name), items[..i])
      {
        var item := items[i];
        EligibleStep(dom, NamedAs(name), items, i);
        if LowerString(dom[item].nodeName) == LowerString(name) {
          r := r + [item];
        }
        i := i + 1;
      }
      assert items[..i] == items;
    } else {
      r := items;
    }
  }

  /** execFilter(elm, getChildNodes, [name], checker, checkerParams, stopper, stopperParams,
      itemsCountCap, returnSingleItemAt, isReverse): `filter` over the children. */
  method ExecFilter(dom: Dom, elm: Option<NodeRef>, name: string, filterBy: Option<Delegate>,
                    filterArgs: seq<Arg>, breakOn: Option<Delegate>, breakArgs: seq<Arg>,
                    itemsCountCap: JsNum, returnSingleItemAt: JsNum, isReverse: bool) returns (r: Found)
    requires WellFormed(dom) && (elm.Some? ==> elm.value in dom)
    ensures elm.None? ==> r == Nodes([])
    ensures elm.Some? ==> r == Select(dom,
      Query(SkipText, filterBy, filterArgs, breakOn, breakArgs, itemsCountCap, returnSingleItemAt),
      Visit(ChildNodes(dom, elm, name), isReverse), true)
  {
    if elm.None? {
      return Nodes([]);
    }
    var items := GetChildNodes(dom, elm, name);
    ChildNodesIn(dom, elm, name);
    r := Filter(dom, Some(items), filterBy, filterArgs, breakOn, breakArgs, itemsCountCap,
                returnSingleItemAt, isReverse);
  }

  lemma ChildNodesIn(dom: Dom, elm: Option<NodeRef>, name: string)
    requires WellFormed(dom) && (elm.Some? ==> elm.value in dom)
    ensures AllIn(dom, ChildNodes(dom, elm, name))
    ensures AllIn(dom, Reversed(ChildNodes(dom, elm, name)))
  {
    if elm.Some? {
      NodeWellFormed(dom, elm.value);
    }
    ReversedIn(dom, ChildNodes(dom, elm, name));
  }

  // ---------------------------------------------------------------------------
  // The public helpers built on them

  /** With no delegates nothing stops the walk and every eligible node is accepted. */
  lemma {:induction false} NoDelegates(dom: Dom, q: Query, cache: seq<NodeRef>, n: nat)
    requires n <= |cache|
    requires q.filterBy.None? && q.breakOn.None?
    ensures FirstStop(dom, q, cache, 0) == |cache|
    ensures Accepted(dom, q, cache, n) == EligibleNodes(dom, q.gate, cache[..n])
  {
    FirstStopIsFirst(dom, q, cache, 0);
    if n > 0 {
      NoDelegates(dom, q, cache, n - 1);
      EligibleStep(dom, q.gate, cache, n - 1);
    }
  }

  /** getChildren(elm, name): the children that are not text nodes, with the name filter. */
  method GetChildren(dom: Dom, elm: Option<NodeRef>, name: string) returns (r: Found)
    requires WellFormed(dom) && (elm.Some? ==> elm.value in dom)
    ensures elm.None? ==> r == Nodes([])
    ensures elm.Some? ==> r == Nodes(EligibleNodes(dom, SkipText, ChildNodes(dom, elm, name)))
  {
    r := ExecFilter(dom, elm, name, None, [], None, [], Undef, Undef, false);
    if elm.Some? {
      var c := ChildNodes(dom, elm, name);
      ChildNodesIn(dom, elm, name);
      NoDelegates(dom, Query(SkipText, None, [], None, [], Undef, Undef), c, |c|);
      assert c[..|c|] == c;
    }
  }

  /** getParents(elm, name): every ancestor with the name filter, nearest first. */
  method GetParentsOf(dom: Dom, elm: Option<NodeRef>, name: string) returns (r: Found)
    requires WellFormed(dom) && (elm.Some? ==> elm.value in dom)
    ensures elm.None? ==> r == Nodes([])
    ensures elm.Some? ==> r == Nodes(EligibleNodes(dom, NameGate(name), Ancestors(dom, elm.value)))
  {
    r := GetParents(dom, elm, None, [], None, [], name, Undef, Undef);
    if elm.Some? {
      var a := Ancestors(dom, elm.value);
      NoDelegates(dom, Query(NameGate(name), None, [], None, [], Undef, Undef), a, |a|);
      assert a[..|a|] == a;
    }
  }

  /** getParent(elm, name) passes a null cap and 0 as the single position: null is not NaN
      and `null <= 1` holds, so the walk stops after the first match and a one-element list
      (or `[]`) comes back, never the node itself. */
  method GetParent(dom: Dom, elm: Option<NodeRef>, name: string) returns (r: Found)
    requires WellFormed(dom) && (elm.Some? ==> elm.value in dom)
    ensures elm.None? ==> r == Nodes([])
    ensures elm.Some? ==> var named := EligibleNodes(dom, NameGate(name), Ancestors(dom, elm.value));
      r == Nodes(if named == [] then [] else [named[0]])
  {
    r := GetParents(dom, elm, None, [], None, [], name, Null, Num(0));
    if elm.Some? {
      var a := Ancestors(dom, elm.value);
      NoDelegates(dom, Query(NameGate(name), None, [], None, [], Null, Num(0)), a, |a|);
      assert a[..|a|] == a;
    }
  }

  /** isParent(elm, ref): `elm` is among `ref`'s ancestors; false for a missing `ref`. */
  method IsParent(dom: Dom, elm: Option<NodeRef>, ref: Option<NodeRef>) returns (b: bool)
    requires WellFormed(dom) && (ref.Some? ==> ref.value in dom)
    ensures b <==> ref.Some? && elm.Some? && elm.value in Ancestors(dom, ref.value)
  {
    if ref.None? {
      return false;
    }
    var parents := GetParentsOf(dom, ref, "");
    EligibleMembers(dom, Every, Ancestors(dom, ref.value), if elm.Some? then elm.value else 0);
    b := elm.Some? && elm.value in parents.nodes;
  }

  /** isParentOrSelf(elm, ref): `ref` itself or one of its ancestors. */
  method IsParentOrSelf(dom: Dom, elm: Option<NodeRef>, ref: Option<NodeRef>) returns (b: bool)
    requires WellFormed(dom) && (ref.Some? ==> ref.value in dom)
    ensures b <==> ref.Some? && (elm == ref || (elm.Some? && elm.value in Ancestors(dom, ref.value)))
  {
    if ref.None? {
      return false;
    }
    if ref == elm {
      return true;
    }
    b := IsParent(dom, elm, ref);
  }

  // ---------------------------------------------------------------------------
  // Properties

  /** Every node `filter` or `getParents` hands back passed the gate (so `filter` never
      returns a text node) and lies before the node the break delegate fired at. */
  lemma SelectedEligible(dom: Dom, q: Query, cache: seq<NodeRef>, nullAtEnd: bool, x: NodeRef)
    requires var r := Select(dom, q, cache, nullAtEnd); (r.Nodes? && x in r.nodes) || r == One(x)
    ensures x in dom && Eligible(dom, q.gate, x)
    ensures exists k :: 0 <= k < FirstStop(dom, q, cache, 0) && cache[k] == x && AcceptedAt(dom, q, cache, k)
  {
    var n := FirstStop(dom, q, cache, 0);
    var acc := Accepted(dom, q, cache, n);
    var p := AcceptedPositions(dom, q, cache, n);
    var r := Select(dom, q, cache, nullAtEnd);
    SelectShape(dom, q, cache, nullAtEnd);
    var j: int;
    if r.Nodes? {
      j :| 0 <= j < |r.nodes| && r.nodes[j] == x;
      assert acc[j] == x;
    } else {
      j := q.single.n - 1;
    }
    assert cache[p[j]] == x && AcceptedAt(dom, q, cache, p[j]);
  }

  /** The delegates that read a second argument see, from the second eligible node on, the
      node unshifted before it in that place: a node can be accepted only while no eligible
      node has gone before it, so these filters accept at most one node. */
  lemma OnlyFirstCandidateTested(dom: Dom, q: Query, cache: seq<NodeRef>, i: nat)
    requires i < |cache|
    requires q.filterBy == Some(HasClassName) || q.filterBy == Some(HasAttribute)
      || (q.filterBy == Some(IsAttributeEquals) && q.filterArgs != [] && !q.filterArgs[0].Undefined?)
    requires AcceptedAt(dom, q, cache, i)
    ensures EligibleNodes(dom, q.gate, cache[..i]) == []
  {
    var e := EligibleNodes(dom, q.gate, cache[..i]);
    if e != [] {
      var args := FilterArgsAt(dom, q, cache, i);
      UnshiftedAt(e, q.filterArgs, 0);
      UnshiftedAt(e, q.filterArgs, 1);
    }
  }

  /** So with those filters at most one node is accepted. */
  lemma {:induction false} AtMostOneAccepted(dom: Dom, q: Query, cache: seq<NodeRef>, n: nat)
    requires n <= |cache|
    requires q.filterBy == Some(HasClassName) || q.filterBy == Some(HasAttribute)
      || (q.filterBy == Some(IsAttributeEquals) && q.filterArgs != [] && !q.filterArgs[0].Undefined?)
    ensures |Accepted(dom, q, cache, n)| <= 1
  {
    if n > 0 {
      AtMostOneAccepted(dom, q, cache, n - 1);
      if AcceptedAt(dom, q, cache, n - 1) && |Accepted(dom, q, cache, n - 1)| == 1 {
        var p := AcceptedPositions(dom, q, cache, n - 1);
        var k := p[0];
        assert AcceptedAt(dom, q, cache, k) && cache[k] in dom && Eligible(dom, q.gate, cache[k]);
        EligibleMembers(dom, q.gate, cache[..n - 1], cache[k]);
        assert cache[..n - 1][k] == cache[k];
        OnlyFirstCandidateTested(dom, q, cache, n - 1);
        assert false;
      }
    }
  }

  /** `isNodeEquals` as a break delegate compares each node with the node visited before
      it; only the first node is compared with `until`. */
  lemma UntilComparesPrevious(dom: Dom, q: Query, cache: seq<NodeRef>, i: nat)
    requires i < |cache| && cache[i] in dom && q.breakOn == Some(IsNodeEquals)
    ensures StopsAt(dom, q, cache, i) <==>
      (i == 0 && ArgAt(q.breakArgs, 0) == NodeArg(cache[0])) || (i > 0 && cache[i - 1] == cache[i])
  {
    var args := BreakArgsAt(q, cache, i);
    assert cache[..i + 1] == cache[..i] + [cache[i]];
    UnshiftAppend(cache[..i], cache[i], q.breakArgs);
    if i > 0 {
      assert cache[..i] == cache[..i - 1] + [cache[i - 1]];
      UnshiftAppend(cache[..i - 1], cache[i - 1], q.breakArgs);
      assert args[1] == NodeArg(cache[i - 1]);
    } else {
      assert args == [NodeArg(cache[0])] + q.breakArgs;
    }
  }

  /** Every node of a chain lies at or above its start. */
  lemma {:induction false} ChainAbove(dom: Dom, t: Option<NodeRef>, x: NodeRef)
    requires WellFormed(dom) && (t.Some? ==> t.value in dom)
    requires x in Chain(dom, t)
    ensures t.Some? && x in dom && dom[x].depth <= dom[t.value].depth
    decreases if t.Some? then dom[t.value].depth + 1 else 0
  {
    NodeWellFormed(dom, t.value);
    if x != t.value {
      ChainAbove(dom, dom[t.value].parent, x);
    }
  }

  /** A node is never its own ancestor. */
  lemma AncestorsExcludeSelf(dom: Dom, n: NodeRef)
    requires WellFormed(dom) && n in dom
    ensures n !in Ancestors(dom, n)
  {
    NodeWellFormed(dom, n);
    if n in Ancestors(dom, n) {
      ChainAbove(dom, dom[n].parent, n);
    }
  }

  /** Ancestors come nearest first: the first is the parent, each next the parent of the one before. */
  lemma {:induction false} ChainLinks(dom: Dom, t: Option<NodeRef>)
    requires WellFormed(dom) && (t.Some? ==> t.value in dom)
    ensures var c := Chain(dom, t);
      (t.Some? ==> c != [] && c[0] == t.value)
      && forall k :: 0 < k < |c| ==> dom[c[k - 1]].parent == Some(c[k])
    decreases if t.Some? then dom[t.value].depth + 1 else 0
  {
    if t.Some? {
      NodeWellFormed(dom, t.value);
      ChainLinks(dom, dom[t.value].parent);
    }
  }

  /** getChildNodes with a name keeps exactly the children whose name matches ignoring case. */
  lemma ChildNodesMembers(dom: Dom, elm: NodeRef, name: string, x: NodeRef)
    requires WellFormed(dom) && elm in dom && name != ""
    ensures x in ChildNodes(dom, Some(elm), name) <==>
      x in dom[elm].childNodes && x in dom && LowerString(dom[x].nodeName) == LowerString(name)
  {
    EligibleMembers(dom, NamedAs(name), dom[elm].childNodes, x);
  }
}
