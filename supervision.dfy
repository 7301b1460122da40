/** Model of the request-timeout supervision shared by o2.AjaxState (o2.ajaxstate.js) and
    o2.AjaxController (o2.ajaxcontroller.core.js).

    A supervisor keeps a list of observer entries `{object, meta}`, each stamped with its
    registration time and timeout. `listen` runs on a timer: it collects the entries whose
    time is up, hands them to `timeoutObservers`, and schedules itself again. The browser's
    clock and timers are parameters here: every operation that reads the time takes `now`,
    and a timer is a handle in `pending`, mapped to the time it is due. */
module Supervision {
  import opened Common

  /** A request handle: whether the transport has completed it, and how often it was
      aborted. */
  class Xhr {
    var isComplete: bool
    var abortCount: nat

    constructor()
      ensures !isComplete && abortCount == 0
    {
      isComplete := false;
      abortCount := 0;
    }

    method Abort()
      modifies this
      ensures abortCount == old(abortCount) + 1
      ensures isComplete == old(isComplete)
    {
      abortCount := abortCount + 1;
    }
  }

  /** `meta` of an entry: when it was registered and after how many milliseconds it expires;
      `None` is the source's `null`. */
  datatype Meta = Meta(registrationTime: int, timeout: Option<int>)

  /** An observer entry `{object, meta}`; `object` is a reserved word here. */
  datatype Entry = Entry(observer: Controller, meta: Meta)

  /** Whether a call ran to its end or threw. */
  datatype Outcome = Done | Threw

  /** What `update` receives as its first argument: the sweep passes the supervisor itself,
      a direct call passes a notice object `{isTimedOut: ...}`. */
  datatype UpdateArg = StateObject | Notice(isTimedOut: bool)

  /** `data.isTimedOut` is truthy; a supervisor has no such property. */
  predicate TimedOut(arg: UpdateArg) {
    arg.Notice? && arg.isTimedOut
  }

  /** `t || null` for an optional number: zero is falsy and becomes `null`. */
  function OrNull(t: Option<int>): (r: Option<int>)
    ensures r.Some? ==> r == t && r.value != 0
    ensures r.None? ==> t.None? || t == Some(0)
  {
    if t == Some(0) then None else t
  }

  predicate HasObject(obs: seq<Entry>, c: Controller) {
    exists i :: 0 <= i < |obs| && obs[i].observer == c
  }

  function ObjectSet(obs: seq<Entry>): set<Controller> {
    set i | 0 <= i < |obs| :: obs[i].observer
  }

  predicate DistinctObjects(obs: seq<Entry>) {
    forall i, j :: 0 <= i < j < |obs| ==> obs[i].observer != obs[j].observer
  }

  /** `deleteObserver`'s scan: the first entry whose object is `c` is spliced out. */
  function RemoveFirst(obs: seq<Entry>, c: Controller): (r: seq<Entry>)
    ensures HasObject(obs, c) ==> |r| == |obs| - 1
    ensures !HasObject(obs, c) ==> r == obs
    ensures forall e :: e in r ==> e in obs
  {
    if obs == [] then []
    else if obs[0].observer == c then obs[1..]
    else
      var rest := RemoveFirst(obs[1..], c);
      assert HasObject(obs, c) ==> HasObject(obs[1..], c) by {
        if HasObject(obs, c) {
          var i :| 0 <= i < |obs| && obs[i].observer == c;
          assert obs[1..][i - 1].observer == c;
        }
      }
      assert HasObject(obs[1..], c) ==> HasObject(obs, c) by {
        if HasObject(obs[1..], c) {
          var i :| 0 <= i < |obs[1..]| && obs[1..][i].observer == c;
          assert obs[i + 1].observer == c;
        }
      }
      [obs[0]] + rest
  }

  /** When `i` is the first index holding `c`, removing the first `c` splices out index `i`. */
  lemma {:induction false} RemoveFirstAt(obs: seq<Entry>, c: Controller, i: nat)
    requires i < |obs| && obs[i].observer == c
    requires forall j :: 0 <= j < i ==> obs[j].observer != c
    ensures RemoveFirst(obs, c) == obs[..i] + obs[i + 1..]
  {
    if i > 0 {
      RemoveFirstAt(obs[1..], c, i - 1);
      assert obs[1..][..i - 1] == obs[1..i];
      assert obs[1..][i..] == obs[i + 1..];
      assert obs[..i] == [obs[0]] + obs[1..i];
    }
  }

  /** Unregistering each queued entry's object in turn, as `timeoutObservers` does. */
  function RemoveEach(obs: seq<Entry>, queue: seq<Entry>): seq<Entry>
    decreases |queue|
  {
    if queue == [] then obs else RemoveEach(RemoveFirst(obs, queue[0].observer), queue[1..])
  }

  /** `now - registrationTime > timeout` for an entry that has a timeout. */
  predicate IsExpired(e: Entry, now: int) {
    e.meta.timeout.Some? && now - e.meta.registrationTime > e.meta.timeout.value
  }

  /** `meta.timeout` is truthy: present and not zero. `listen` throws on a falsy one. */
  predicate HasTimeout(m: Meta) {
    m.timeout.Some? && m.timeout.value != 0
  }

  predicate AllHaveTimeout(obs: seq<Entry>) {
    forall i :: 0 <= i < |obs| ==> HasTimeout(obs[i].meta)
  }

  /** `listen`'s unregister queue: the expired entries, in list order. */
  function Expired(obs: seq<Entry>, now: int): seq<Entry>
  {
    if obs == [] then []
    else Expired(obs[..|obs| - 1], now) + (if IsExpired(obs[|obs| - 1], now) then [obs[|obs| - 1]] else [])
  }

  /** The entries that are not expired, in list order. */
  function Unexpired(obs: seq<Entry>, now: int): seq<Entry>
  {
    if obs == [] then []
    else (if IsExpired(obs[0], now) then [] else [obs[0]]) + Unexpired(obs[1..], now)
  }

  /** The entries whose object is not in `cs`, in list order. */
  function Without(obs: seq<Entry>, cs: set<Controller>): seq<Entry>
  {
    if obs == [] then []
    else (if obs[0].observer in cs then [] else [obs[0]]) + Without(obs[1..], cs)
  }

  /** What one run of `listen` does to the observer list: nothing when it is empty; a throw,
      changing nothing, when some entry has a falsy timeout; otherwise each expired entry's object
      is unregistered once. */
  function SweepResult(obs: seq<Entry>, now: int): (Outcome, seq<Entry>)
  {
    if |obs| == 0 then (Done, obs)
    else if !AllHaveTimeout(obs) then (Threw, obs)
    else (Done, RemoveEach(obs, Expired(obs, now)))
  }

  /** `timeoutObservers` over the live list, `len` cached at the start: `observers[i].observer`
      on a list that has shrunk to `i` entries or fewer throws. */
  function LiveSweep(obs: seq<Entry>, i: nat, len: nat): (Outcome, seq<Entry>)
    decreases len - i
  {
    if i >= len then (Done, obs)
    else if i >= |obs| then (Threw, obs)
    else LiveSweep(RemoveFirst(obs, obs[i].observer), i + 1, len)
  }

  /** The entries at odd positions. */
  function Odds(obs: seq<Entry>): (r: seq<Entry>)
    ensures |r| == |obs| / 2
    ensures forall j :: 0 <= j < |r| ==> r[j] == obs[2 * j + 1]
  {
    seq(|obs| / 2, j requires 0 <= j < |obs| / 2 => obs[2 * j + 1])
  }

  const AjaxListenTimeout := 1000

  /** A supervisor: the `protecteds` of o2.AjaxState (observers, config, state) and its
      public operations. */
  class Supervisor {
    var observers: seq<Entry>
    const listenTimeout: nat
    var listenTimeoutId: Option<nat>
    var pending: map<nat, int>
    var nextHandle: nat

    /** At most one timer is pending and it is the one `listenTimeoutId` names; every
        registered object belongs to this supervisor and is live. */
    ghost predicate Valid()
      reads this, ObjectSet(observers)
    {
      (forall h :: h in pending ==> listenTimeoutId == Some(h))
      && (listenTimeoutId.Some? ==> listenTimeoutId.value < nextHandle)
      && (forall i :: 0 <= i < |observers| ==> observers[i].observer.state == this && !observers[i].observer.isDeleted)
    }

    constructor(listenTimeout: nat)
      ensures Valid()
      ensures this.listenTimeout == listenTimeout
      ensures observers == [] && listenTimeoutId == None && pending == map[] && nextHandle == 0
    {
      this.listenTimeout := listenTimeout;
      observers := [];
      listenTimeoutId := None;
      pending := map[];
      nextHandle := 0;
    }

    /** `init`: start listening. */
    method Init(now: int) returns (outcome: Outcome)
      requires Valid()
      modifies this
      ensures Valid()
      ensures (outcome, observers) == SweepResult(old(observers), now)
      ensures outcome == Done ==> listenTimeoutId == Some(old(nextHandle)) && pending == map[old(nextHandle) := now + listenTimeout]
      ensures outcome == Threw ==> unchanged(this`listenTimeoutId, this`pending, this`nextHandle)
    {
      outcome := Listen(now);
    }

    /** `hasObserver` compares `observer.object` with the entries themselves; a controller
        has no `object` property, so nothing ever matches. */
    method HasObserver(observer: Controller) returns (found: bool)
      ensures !found
    {
      var i := 0;
      while i < |observers|
        invariant 0 <= i <= |observers|
      {
        if ObjectProperty(observer) == EntryValue(observers[i]) {
          return true;
        }
        i := i + 1;
      }
      return false;
    }

    /** `addObserver`: register with the current time and `observer.timeout || null`.
        Because `hasObserver` never matches, an observer added twice gets two entries. */
    method AddObserver(observer: Controller, now: int)
      requires Valid() && observer.state == this && !observer.isDeleted
      modifies this
      ensures Valid()
      ensures observers == old(observers) + [Entry(observer, Meta(now, OrNull(observer.timeout)))]
      ensures CountObservers() == old(CountObservers()) + 1
      ensures unchanged(this`listenTimeoutId, this`pending, this`nextHandle)
    {
      var found := HasObserver(observer);
      if found {
        return;
      }
      observers := observers + [Entry(observer, Meta(now, OrNull(observer.timeout)))];
    }

    /** `deleteObserver`: a deleted observer is reported as removed without a scan; otherwise
        the first entry holding it is spliced out. The source's `splice(i, 1).isDeleted = true`
        marks the removed array, not the observer, so `isDeleted` is left as it was. */
    method DeleteObserver(observer: Controller) returns (deleted: bool)
      requires Valid()
      modifies this
      ensures Valid()
      ensures observer.isDeleted ==> deleted && observers == old(observers)
      ensures !observer.isDeleted ==>
        deleted == HasObject(old(observers), observer) && observers == RemoveFirst(old(observers), observer)
      ensures CountObservers() == old(CountObservers()) - (if deleted && !observer.isDeleted then 1 else 0)
      ensures unchanged(this`listenTimeoutId, this`pending, this`nextHandle)
    {
      if observer.isDeleted {
        return true;
      }
      var i := 0;
      while i < |observers|
        invariant 0 <= i <= |observers|
        invariant forall j :: 0 <= j < i ==> observers[j].observer != observer
      {
        if observer == observers[i].observer {
          RemoveFirstAt(observers, observer, i);
          observers := observers[..i] + observers[i + 1..];
          return true;
        }
        i := i + 1;
      }
      return false;
    }

    /** `countObservers`. */
    function CountObservers(): (n: nat)
      reads this
      ensures n == |observers|
    {
      |observers|
    }

    /** `deleteObservers`: truncate the list. */
    method DeleteObservers()
      requires Valid()
      modifies this
      ensures Valid()
      ensures observers == []
      ensures unchanged(this`listenTimeoutId, this`pending, this`nextHandle)
    {
      observers := [];
    }

    /** `timeoutObservers(queue)`: each queued object receives `update(this, ...)`, which the
        supervisor argument makes a no-op, and then `unregister`. */
    method TimeoutObservers(queue: seq<Entry>)
      requires Valid()
      requires forall i :: 0 <= i < |queue| ==> queue[i].observer.state == this && !queue[i].observer.isDeleted
      modifies this
      ensures Valid()
      ensures observers == RemoveEach(old(observers), queue)
      ensures unchanged(this`listenTimeoutId, this`pending, this`nextHandle)
    {
      var i := 0;
      while i < |queue|
        invariant 0 <= i <= |queue|
        invariant Valid()
        invariant RemoveEach(observers, queue[i..]) == RemoveEach(old(observers), queue)
        invariant unchanged(this`listenTimeoutId, this`pending, this`nextHandle)
      {
        var observer := queue[i].observer;
        observer.Update(StateObject);
        observer.Unregister();
        assert queue[i..][1..] == queue[i + 1..];
        i := i + 1;
      }
    }

    /** `timeoutAllObservers`: the same walk over the live list, whose length is read once. */
    method TimeoutAllObservers() returns (outcome: Outcome)
      requires Valid()
      modifies this
      ensures Valid()
      ensures (outcome, observers) == LiveSweep(old(observers), 0, |old(observers)|)
      ensures unchanged(this`listenTimeoutId, this`pending, this`nextHandle)
    {
      var len := |observers|;
      var i := 0;
      while i < len
        invariant 0 <= i <= len
        invariant Valid()
        invariant LiveSweep(observers, i, len) == LiveSweep(old(observers), 0, len)
        invariant unchanged(this`listenTimeoutId, this`pending, this`nextHandle)
      {
        if i >= |observers| {
          return Threw;
        }
        var observer := observers[i].observer;
        observer.Update(StateObject);
        observer.Unregister();
        i := i + 1;
      }
      return Done;
    }

    /** `clearTimeout(listenTimeoutId)` followed by `listenTimeoutId = setTimeout(listen, LISTEN_TIMEOUT)`. */
    method Reschedule(now: int)
      requires Valid()
      modifies this
      ensures Valid()
      ensures listenTimeoutId == Some(old(nextHandle)) && nextHandle == old(nextHandle) + 1
      ensures pending == map[old(nextHandle) := now + listenTimeout]
      ensures observers == old(observers)
    {
      if listenTimeoutId.Some? {
        pending := pending - {listenTimeoutId.value};
      }
      assert pending == map[];
      pending := pending[nextHandle := now + listenTimeout];
      listenTimeoutId := Some(nextHandle);
      nextHandle := nextHandle + 1;
    }

    /** `listen`: collect the expired entries, throwing at the first entry with a falsy timeout
        (which leaves the list and the timers as they were, so listening stops); unregister
        the collected ones; schedule the next run. An empty list is only rescheduled. */
    method Listen(now: int) returns (outcome: Outcome)
      requires Valid()
      modifies this
      ensures Valid()
      ensures (outcome, observers) == SweepResult(old(observers), now)
      ensures outcome == Done ==> listenTimeoutId == Some(old(nextHandle)) && pending == map[old(nextHandle) := now + listenTimeout]
      ensures outcome == Threw ==> unchanged(this`listenTimeoutId, this`pending, this`nextHandle)
    {
      if |observers| == 0 {
        Reschedule(now);
        return Done;
      }
      var queue := [];
      var i := 0;
      while i < |observers|
        invariant 0 <= i <= |observers|
        invariant AllHaveTimeout(observers[..i])
        invariant queue == Expired(observers[..i], now)
      {
        var entry := observers[i];
        if !HasTimeout(entry.meta) {
          assert !AllHaveTimeout(observers);
          return Threw;
        }
        if now - entry.meta.registrationTime > entry.meta.timeout.value {
          queue := queue + [entry];
        }
        assert observers[..i + 1][..i] == observers[..i];
        i := i + 1;
      }
      assert observers[..i] == observers;
      ExpiredMembers(observers, now);
      forall k | 0 <= k < |queue| ensures queue[k].observer.state == this && !queue[k].observer.isDeleted {
        assert queue[k] in observers;
        var j :| 0 <= j < |observers| && observers[j] == queue[k];
      }
      TimeoutObservers(queue);
      Reschedule(now);
      return Done;
    }

    /** A timer callback: the pending handle has fired, and `listen` runs. If it throws, no
        timer is left and the supervisor stops listening. */
    method Fire(now: int) returns (outcome: Outcome)
      requires Valid() && listenTimeoutId.Some? && listenTimeoutId.value in pending
      modifies this
      ensures Valid()
      ensures (outcome, observers) == SweepResult(old(observers), now)
      ensures outcome == Done ==> listenTimeoutId == Some(old(nextHandle)) && pending == map[old(nextHandle) := now + listenTimeout]
      ensures outcome == Threw ==> pending == map[]
    {
      pending := pending - {listenTimeoutId.value};
      outcome := Listen(now);
    }
  }

  /** The source's `observer.object` and `observers[i]`, as the values `===` compares. */
  datatype JsProp = Undefined | EntryObject(entry: Entry)

  function ObjectProperty(c: Controller): (p: JsProp)
    ensures p.Undefined?
  {
    Undefined
  }

  function EntryValue(e: Entry): (p: JsProp)
    ensures p.EntryObject?
  {
    EntryObject(e)
  }

  /** o2.AjaxController: a request, its timeout and `ontimeout` callback, registered with a
      supervisor on construction. `ontimeoutCalls` counts the callback's invocations. */
  class Controller {
    const xhr: Xhr
    const state: Supervisor
    const timeout: Option<int>
    const hasOnTimeout: bool
    var isDeleted: bool
    var ontimeoutCalls: nat

    /** `new AjaxController(xhr, args)`: `timeout` is `args.timeout` (`None` when `args` or
        the property is missing), `hasOnTimeout` whether `args.ontimeout` is given. */
    constructor(xhr: Xhr, state: Supervisor, timeout: Option<int>, hasOnTimeout: bool, now: int)
      requires state.Valid()
      modifies state
      ensures this.xhr == xhr && this.state == state && this.timeout == OrNull(timeout)
      ensures this.hasOnTimeout == hasOnTimeout && !isDeleted && ontimeoutCalls == 0
      ensures state.Valid()
      ensures state.observers == old(state.observers) + [Entry(this, Meta(now, OrNull(timeout)))]
      ensures unchanged(state`listenTimeoutId, state`pending, state`nextHandle)
    {
      this.xhr := xhr;
      this.state := state;
      this.timeout := OrNull(timeout);
      this.hasOnTimeout := hasOnTimeout;
      isDeleted := false;
      ontimeoutCalls := 0;
      new;
      state.AddObserver(this, now);
    }

    /** `update(data)`: nothing unless `data.isTimedOut`; then unregister, abort the request
        and run `ontimeout`. */
    method Update(arg: UpdateArg)
      requires state.Valid()
      modifies if TimedOut(arg) then {this, xhr, state} else {}
      ensures state.Valid()
      ensures TimedOut(arg) ==> xhr.abortCount == old(xhr.abortCount) + 1
      ensures TimedOut(arg) ==> ontimeoutCalls == old(ontimeoutCalls) + (if hasOnTimeout then 1 else 0)
      ensures TimedOut(arg) && !isDeleted ==> state.observers == RemoveFirst(old(state.observers), this)
      ensures TimedOut(arg) && isDeleted ==> state.observers == old(state.observers)
      ensures isDeleted == old(isDeleted)
      ensures unchanged(state`listenTimeoutId, state`pending, state`nextHandle)
    {
      if !TimedOut(arg) {
        return;
      }
      Unregister();
      xhr.Abort();
      if hasOnTimeout {
        ontimeoutCalls := ontimeoutCalls + 1;
      }
    }

    /** `unregister`: a deleted controller does nothing, a live one is removed from its
        supervisor. */
    method Unregister()
      requires state.Valid()
      modifies state
      ensures state.Valid()
      ensures isDeleted ==> state.observers == old(state.observers)
      ensures !isDeleted ==> state.observers == RemoveFirst(old(state.observers), this)
      ensures unchanged(state`listenTimeoutId, state`pending, state`nextHandle)
    {
      if isDeleted {
        return;
      }
      var _ := state.DeleteObserver(this);
    }
  }

  /** An entry is in the unregister queue exactly when it is in the list and expired. */
  lemma {:induction false} ExpiredMembers(obs: seq<Entry>, now: int)
    ensures forall e :: e in Expired(obs, now) <==> e in obs && IsExpired(e, now)
  {
    if obs != [] {
      ExpiredMembers(obs[..|obs| - 1], now);
      assert obs == obs[..|obs| - 1] + [obs[|obs| - 1]];
    }
  }

  /** Registering a new controller and then unregistering it restores the list. */
  lemma AddThenRemove(obs: seq<Entry>, c: Controller, m: Meta)
    requires !HasObject(obs, c)
    ensures RemoveFirst(obs + [Entry(c, m)], c) == obs
  {
    RemoveFirstAt(obs + [Entry(c, m)], c, |obs|);
    assert (obs + [Entry(c, m)])[..|obs|] == obs;
  }

  lemma ObjectSetCons(obs: seq<Entry>)
    requires obs != []
    ensures ObjectSet(obs) == {obs[0].observer} + ObjectSet(obs[1..])
  {
    forall x | x in ObjectSet(obs) ensures x in {obs[0].observer} + ObjectSet(obs[1..]) {
      var i :| 0 <= i < |obs| && obs[i].observer == x;
      if i > 0 { assert obs[1..][i - 1].observer == x; }
    }
    forall x | x in ObjectSet(obs[1..]) ensures x in ObjectSet(obs) {
      var i :| 0 <= i < |obs[1..]| && obs[1..][i].observer == x;
      assert obs[i + 1].observer == x;
    }
  }

  /** A list is distinct exactly when its head is not in its tail and its tail is distinct. */
  lemma DistinctCons(obs: seq<Entry>)
    requires obs != []
    ensures DistinctObjects(obs) <==>
      obs[0].observer !in ObjectSet(obs[1..]) && DistinctObjects(obs[1..])
  {
    if DistinctObjects(obs) {
      forall i, j | 0 <= i < j < |obs[1..]| ensures obs[1..][i].observer != obs[1..][j].observer {
        assert obs[1..][i] == obs[i + 1] && obs[1..][j] == obs[j + 1];
      }
    } else {
      var i, j :| 0 <= i < j < |obs| && obs[i].observer == obs[j].observer;
      if i == 0 {
        assert obs[1..][j - 1].observer == obs[0].observer;
      } else {
        assert obs[1..][i - 1] == obs[i] && obs[1..][j - 1] == obs[j];
      }
    }
  }

  /** `countObservers` counts entries, not controllers: the two agree exactly when no
      controller is registered twice. */
  lemma {:induction false} CountIsRegistered(obs: seq<Entry>)
    ensures |ObjectSet(obs)| <= |obs|
    ensures |ObjectSet(obs)| == |obs| <==> DistinctObjects(obs)
  {
    if obs != [] {
      CountIsRegistered(obs[1..]);
      ObjectSetCons(obs);
      DistinctCons(obs);
    }
  }

  lemma {:induction false} WithoutMember(obs: seq<Entry>, cs: set<Controller>, e: Entry)
    ensures e in Without(obs, cs) <==> e in obs && e.observer !in cs
  {
    if obs != [] {
      WithoutMember(obs[1..], cs, e);
      assert obs == [obs[0]] + obs[1..];
    }
  }

  lemma {:induction false} WithoutDistinct(obs: seq<Entry>, cs: set<Controller>)
    requires DistinctObjects(obs)
    ensures DistinctObjects(Without(obs, cs))
  {
    if obs != [] {
      assert DistinctObjects(obs[1..]) by {
        forall i, j | 0 <= i < j < |obs[1..]| ensures obs[1..][i].observer != obs[1..][j].observer {
          assert obs[1..][i] == obs[i + 1] && obs[1..][j] == obs[j + 1];
        }
      }
      WithoutDistinct(obs[1..], cs);
      var rest := Without(obs[1..], cs);
      forall e | e in rest ensures e.observer != obs[0].observer {
        WithoutMember(obs[1..], cs, e);
        var k :| 0 <= k < |obs[1..]| && obs[1..][k] == e;
        assert obs[k + 1] == e;
      }
    }
  }

  /** With every object registered once, removing the first `c` removes every `c`. */
  lemma {:induction false} RemoveFirstDistinct(obs: seq<Entry>, c: Controller)
    requires DistinctObjects(obs)
    ensures RemoveFirst(obs, c) == Without(obs, {c})
  {
    if obs != [] {
      if obs[0].observer == c {
        assert Without(obs[1..], {c}) == obs[1..] by {
          forall k | 0 <= k < |obs[1..]| ensures obs[1..][k].observer != c {
            assert obs[1..][k] == obs[k + 1];
          }
          WithoutNone(obs[1..], {c});
        }
      } else {
        assert DistinctObjects(obs[1..]) by {
          forall i, j | 0 <= i < j < |obs[1..]| ensures obs[1..][i].observer != obs[1..][j].observer {
            assert obs[1..][i] == obs[i + 1] && obs[1..][j] == obs[j + 1];
          }
        }
        RemoveFirstDistinct(obs[1..], c);
      }
    }
  }

  lemma {:induction false} WithoutNone(obs: seq<Entry>, cs: set<Controller>)
    requires forall k :: 0 <= k < |obs| ==> obs[k].observer !in cs
    ensures Without(obs, cs) == obs
  {
    if obs != [] {
      WithoutNone(obs[1..], cs);
    }
  }

  lemma {:induction false} WithoutWithout(obs: seq<Entry>, a: set<Controller>, b: set<Controller>)
    ensures Without(Without(obs, a), b) == Without(obs, a + b)
  {
    if obs != [] {
      WithoutWithout(obs[1..], a, b);
      if obs[0].observer in a {
        assert Without(obs, a) == Without(obs[1..], a);
        assert obs[0].observer in a + b;
        assert Without(obs, a + b) == Without(obs[1..], a + b);
      } else {
        var w := Without(obs, a);
        assert w == [obs[0]] + Without(obs[1..], a);
        assert w[0] == obs[0] && w[1..] == Without(obs[1..], a);
        assert Without(w, b) == (if obs[0].observer in b then [] else [obs[0]]) + Without(w[1..], b);
      }
    }
  }

  /** Unregistering a queue of distinct-object entries drops exactly the queued objects. */
  lemma {:induction false} RemoveEachDistinct(obs: seq<Entry>, queue: seq<Entry>)
    requires DistinctObjects(obs)
    ensures RemoveEach(obs, queue) == Without(obs, ObjectSet(queue))
    decreases |queue|
  {
    if queue == [] {
      assert ObjectSet(queue) == {};
      WithoutNone(obs, {});
    } else {
      var c := queue[0].observer;
      RemoveFirstDistinct(obs, c);
      WithoutDistinct(obs, {c});
      RemoveEachDistinct(Without(obs, {c}), queue[1..]);
      WithoutWithout(obs, {c}, ObjectSet(queue[1..]));
      assert ObjectSet(queue) == {c} + ObjectSet(queue[1..]) by {
        forall x | x in ObjectSet(queue) ensures x in {c} + ObjectSet(queue[1..]) {
          var k :| 0 <= k < |queue| && queue[k].observer == x;
          if k > 0 {
            assert queue[1..][k - 1].observer == x;
          }
        }
        forall x | x in ObjectSet(queue[1..]) ensures x in ObjectSet(queue) {
          var k :| 0 <= k < |queue[1..]| && queue[1..][k].observer == x;
          assert queue[k + 1].observer == x;
        }
      }
    }
  }

  lemma {:induction false} WithoutIsUnexpired(obs: seq<Entry>, cs: set<Controller>, now: int)
    requires forall k :: 0 <= k < |obs| ==> (obs[k].observer in cs <==> IsExpired(obs[k], now))
    ensures Without(obs, cs) == Unexpired(obs, now)
  {
    if obs != [] {
      WithoutIsUnexpired(obs[1..], cs, now);
    }
  }

  /** With every controller registered once, a controller is in the unregister queue exactly
      when its entry has expired. */
  lemma ExpiredObjects(obs: seq<Entry>, now: int)
    requires DistinctObjects(obs)
    ensures forall k :: 0 <= k < |obs| ==> (obs[k].observer in ObjectSet(Expired(obs, now)) <==> IsExpired(obs[k], now))
  {
    var queue := Expired(obs, now);
    ExpiredMembers(obs, now);
    forall k | 0 <= k < |obs| ensures obs[k].observer in ObjectSet(queue) <==> IsExpired(obs[k], now) {
      if IsExpired(obs[k], now) {
        assert obs[k] in queue;
        var j :| 0 <= j < |queue| && queue[j] == obs[k];
      }
      if obs[k].observer in ObjectSet(queue) {
        var j :| 0 <= j < |queue| && queue[j].observer == obs[k].observer;
        assert queue[j] in obs;
        var m :| 0 <= m < |obs| && obs[m] == queue[j];
        assert m == k;
      }
    }
  }

  /** One `listen` with every controller registered once unregisters exactly the entries
      whose time is up and keeps the others in order. */
  lemma SweepRemovesExpired(obs: seq<Entry>, now: int)
    requires |obs| > 0 && AllHaveTimeout(obs) && DistinctObjects(obs)
    ensures SweepResult(obs, now) == (Done, Unexpired(obs, now))
  {
    var queue := Expired(obs, now);
    RemoveEachDistinct(obs, queue);
    ExpiredObjects(obs, now);
    WithoutIsUnexpired(obs, ObjectSet(queue), now);
  }

  /** Nothing sets `isDeleted`, so a second `deleteObserver` of the same controller (every
      controller registered once) scans again, finds nothing, returns false and changes
      nothing. */
  lemma SecondDeleteFindsNothing(obs: seq<Entry>, c: Controller)
    requires DistinctObjects(obs)
    ensures !HasObject(RemoveFirst(obs, c), c)
    ensures RemoveFirst(RemoveFirst(obs, c), c) == RemoveFirst(obs, c)
  {
    RemoveFirstDistinct(obs, c);
    var w := RemoveFirst(obs, c);
    if HasObject(w, c) {
      var i :| 0 <= i < |w| && w[i].observer == c;
      WithoutMember(obs, {c}, w[i]);
    }
  }

  /** A controller registered twice, whose later entry has expired but whose earlier one has
      not: the sweep unregisters the controller once, which splices out the EARLIER entry and
      keeps the expired one. */
  lemma DuplicateRemovesWrongEntry(c: Controller, early: Meta, late: Meta, now: int)
    requires HasTimeout(early) && HasTimeout(late)
    requires !IsExpired(Entry(c, early), now) && IsExpired(Entry(c, late), now)
    ensures SweepResult([Entry(c, early), Entry(c, late)], now) == (Done, [Entry(c, late)])
  {
    var obs := [Entry(c, early), Entry(c, late)];
    assert obs[..1] == [Entry(c, early)];
    assert obs[..1][..0] == [];
    assert Expired(obs[..1], now) == [];
    assert Expired(obs, now) == [Entry(c, late)];
    assert RemoveFirst(obs, c) == [Entry(c, late)];
    assert RemoveEach(obs, [Entry(c, late)]) == RemoveEach([Entry(c, late)], []);
  }

  /** `timeoutAllObservers` over distinct controllers: every step removes the entry at the
      step's index, so the entries at even positions go; on a list of two or more the walk
      runs past the shrunken list and throws, leaving the entries at odd positions. */
  lemma LiveSweepDistinct(obs: seq<Entry>)
    requires DistinctObjects(obs)
    ensures LiveSweep(obs, 0, |obs|) == if |obs| >= 2 then (Threw, Odds(obs)) else (Done, [])
  {
    assert obs == Odds(obs[..0]) + obs[0..];
    LiveSweepFrom(obs, 0);
  }

  /** Moving past one odd position keeps the walk's list in the same shape. */
  lemma OddsStep(obs: seq<Entry>, i: nat)
    requires 2 * i + 2 <= |obs|
    ensures Odds(obs[..2 * i]) + obs[2 * i + 1..] == Odds(obs[..2 * (i + 1)]) + obs[2 * (i + 1)..]
  {
    var l, r := Odds(obs[..2 * i]) + [obs[2 * i + 1]], Odds(obs[..2 * (i + 1)]);
    forall j | 0 <= j < |r| ensures l[j] == r[j] {
      if j < i { assert l[j] == obs[..2 * i][2 * j + 1]; }
    }
    assert obs[2 * i + 1..] == [obs[2 * i + 1]] + obs[2 * (i + 1)..];
  }

  /** On a list of odd length the last entry is at an even position. */
  lemma OddsOddLength(obs: seq<Entry>)
    requires |obs| % 2 == 1
    ensures Odds(obs) == Odds(obs[..|obs| - 1])
  {
    var l, r := Odds(obs), Odds(obs[..|obs| - 1]);
    forall j | 0 <= j < |r| ensures l[j] == r[j] {
      assert r[j] == obs[..|obs| - 1][2 * j + 1];
    }
  }

  /** One step of the walk over distinct controllers: removing the entry at index `i`. */
  lemma LiveSweepStep(obs: seq<Entry>, i: nat)
    requires DistinctObjects(obs) && 2 * i < |obs|
    ensures var list := Odds(obs[..2 * i]) + obs[2 * i..];
      i < |list| && list[i] == obs[2 * i]
      && RemoveFirst(list, obs[2 * i].observer) == Odds(obs[..2 * i]) + obs[2 * i + 1..]
  {
    var list := Odds(obs[..2 * i]) + obs[2 * i..];
    var c := obs[2 * i].observer;
    assert list[i] == obs[2 * i];
    forall j | 0 <= j < i ensures list[j].observer != c {
      assert list[j] == obs[2 * j + 1];
    }
    RemoveFirstAt(list, c, i);
    assert list[..i] == Odds(obs[..2 * i]);
    assert list[i + 1..] == obs[2 * i + 1..];
  }

  /** The walk ends on an even-length list once half of it is gone. */
  lemma LiveSweepEven(obs: seq<Entry>, i: nat)
    requires 2 * i == |obs|
    ensures LiveSweep(Odds(obs[..2 * i]) + obs[2 * i..], i, |obs|)
      == if |obs| >= 2 then (Threw, Odds(obs)) else (Done, [])
  {
    assert obs[..2 * i] == obs;
    assert Odds(obs[..2 * i]) + obs[2 * i..] == Odds(obs);
  }

  /** On an odd-length list the last step removes the final entry, then the walk ends. */
  lemma LiveSweepOddEnd(obs: seq<Entry>, i: nat)
    requires DistinctObjects(obs) && 2 * i + 1 == |obs|
    ensures LiveSweep(Odds(obs[..2 * i]) + obs[2 * i..], i, |obs|)
      == if |obs| >= 2 then (Threw, Odds(obs)) else (Done, [])
  {
    LiveSweepStep(obs, i);
    OddsOddLength(obs);
    assert obs[..2 * i] == obs[..|obs| - 1];
    assert Odds(obs[..2 * i]) + obs[2 * i + 1..] == Odds(obs);
  }

  lemma {:induction false} LiveSweepFrom(obs: seq<Entry>, i: nat)
    requires DistinctObjects(obs) && 2 * i <= |obs|
    ensures LiveSweep(Odds(obs[..2 * i]) + obs[2 * i..], i, |obs|)
      == if |obs| >= 2 then (Threw, Odds(obs)) else (Done, [])
    decreases |obs| - i
  {
    if 2 * i == |obs| {
      LiveSweepEven(obs, i);
    } else if 2 * i + 1 == |obs| {
      LiveSweepOddEnd(obs, i);
    } else {
      LiveSweepStep(obs, i);
      OddsStep(obs, i);
      LiveSweepFrom(obs, i + 1);
    }
  }



}
