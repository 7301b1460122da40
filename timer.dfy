/** Model of o2.Timer (o2.timer.core.js): a table of timers keyed by `'t' + id`, each with
    its delegate, period, current browser handle and whether it repeats. Browser timer
    handles are modelled as the set of live handles with their kind; a handle is removed by
    `clearTimeout`/`clearInterval`. Delegates are identified by a number and never run here. */
module Timer {
  import opened Common

  const Prefix: string := "t"

  /** A timer's `meta`: `{delegate, timeout, id, shouldRepeat}`. */
  datatype TimerMeta = TimerMeta(delegate: nat, timeout: int, id: Option<nat>, shouldRepeat: bool)

  /** The caller's `options`: `start` and `repeat`, `None` when the property is missing. */
  datatype Options = Options(start: Option<bool>, repeat: Option<bool>)

  /** Whether a live handle came from `setInterval` or `setTimeout`. */
  datatype HandleKind = OneShot | Repeating

  /** `concat(kPrefix, id)`: the table key of a timer. */
  function Key(id: string): (k: string)
    ensures |k| == |id| + 1 && k[0] == 't' && k[1..] == id
  {
    Prefix + id
  }

  /** Distinct ids have distinct keys, so each timer has its own table entry. */
  lemma KeyInjective(a: string, b: string)
    ensures Key(a) == Key(b) <==> a == b
  {
    if Key(a) == Key(b) {
      assert a == Key(a)[1..] && b == Key(b)[1..];
    }
  }

  /** Keys are one character longer than ids, so prefixing an already-prefixed key never
      gives back that key. */
  lemma KeyOfKeyDiffers(id: string)
    ensures Key(Key(id)) != Key(id)
  {
    assert |Key(Key(id))| == |Key(id)| + 1;
  }

  /** `options || {}`, then `start` defaulting to true, then `!!repeat` and `!!start`. */
  function NormalizeOptions(options: Option<Options>): (o: Options)
    ensures o.start.Some? && o.repeat.Some?
    ensures o.start.value <==> options.None? || options.value.start != Some(false)
    ensures o.repeat.value <==> options.Some? && options.value.repeat == Some(true)
  {
    var given := if options.Some? then options.value else Options(None, None);
    var start := if given.start.None? then true else given.start.value;
    Options(Some(start), Some(given.repeat == Some(true)))
  }

  /** `clearTimeout(h)` / `clearInterval(h)`; clearing `null` does nothing. */
  function Release(live: map<nat, HandleKind>, h: Option<nat>): (r: map<nat, HandleKind>)
    ensures h.None? ==> r == live
    ensures h.Some? ==> r.Keys == live.Keys - {h.value}
    ensures forall x :: x in r ==> x in live && r[x] == live[x]
  {
    if h.Some? then live - {h.value} else live
  }

  /** Writing a key twice keeps the second value. */
  lemma PutTwice<K, V>(m: map<K, V>, k: K, a: V, b: V)
    ensures m[k := a][k := b] == m[k := b]
  {
  }

  class Timers {
    var timers: map<string, TimerMeta>
    var live: map<nat, HandleKind>
    var nextHandle: nat

    /** Handles are numbered below `nextHandle`, and no two entries hold the same handle. */
    ghost predicate Valid()
      reads this
    {
      (forall h :: h in live ==> h < nextHandle)
      && (forall k :: k in timers && timers[k].id.Some? ==> timers[k].id.value < nextHandle)
      && (forall k1, k2 :: k1 in timers && k2 in timers && k1 != k2 && timers[k1].id.Some? ==> timers[k1].id != timers[k2].id)
    }

    constructor()
      ensures Valid() && timers == map[] && live == map[] && nextHandle == 0
    {
      timers := map[];
      live := map[];
      nextHandle := 0;
    }

    /** `start(id)`: an unknown id is ignored; otherwise the entry's previous handle is
        cleared and a new interval (repeating timer) or timeout is created and recorded. */
    method Start(id: string)
      requires Valid()
      modifies this
      ensures Valid()
      ensures Key(id) !in old(timers) ==> timers == old(timers) && live == old(live) && nextHandle == old(nextHandle)
      ensures Key(id) in old(timers) ==>
        var m := old(timers)[Key(id)];
        old(nextHandle) !in old(live)
        && timers == old(timers)[Key(id) := m.(id := Some(old(nextHandle)))]
        && live == Release(old(live), m.id)[old(nextHandle) := if m.shouldRepeat then Repeating else OneShot]
        && nextHandle == old(nextHandle) + 1
    {
      var timerId := Key(id);
      if timerId !in timers {
        return;
      }
      var meta := timers[timerId];
      live := Release(live, meta.id);
      var handle := nextHandle;
      nextHandle := nextHandle + 1;
      live := live[handle := if meta.shouldRepeat then Repeating else OneShot];
      timers := timers[timerId := meta.(id := Some(handle))];
    }

    /** `stop(id)`: an unknown id is ignored; otherwise the entry's handle is cleared. The
        entry stays in the table, so `start` can run it again. */
    method Stop(id: string)
      requires Valid()
      modifies this
      ensures Valid()
      ensures timers == old(timers) && nextHandle == old(nextHandle)
      ensures Key(id) !in old(timers) ==> live == old(live)
      ensures Key(id) in old(timers) ==> live == Release(old(live), old(timers)[Key(id)].id)
    {
      var timerId := Key(id);
      if timerId !in timers {
        return;
      }
      var meta := timers[timerId];
      live := Release(live, meta.id);
    }

    /** `set(id, delegate, timeout, options)`: an existing entry is stopped and deleted, a
        fresh entry with no handle is stored, and it is started when the normalised
        `options.start` is true. The normalised options are returned, as the caller's object
        is rewritten. The stop is given the already-prefixed key, so it stops the timer
        `'t' + 't' + id`, if any, and the replaced entry's handle stays live. */
    method Set(id: string, delegate: nat, timeout: int, options: Option<Options>) returns (normalized: Options)
      requires Valid()
      modifies this
      ensures Valid()
      ensures normalized == NormalizeOptions(options)
      ensures var stopped := if Key(id) in old(timers) && Key(Key(id)) in old(timers)
                             then Release(old(live), old(timers)[Key(Key(id))].id) else old(live);
        if normalized.start.value then
          timers == old(timers)[Key(id) := TimerMeta(delegate, timeout, Some(old(nextHandle)), normalized.repeat.value)]
          && live == stopped[old(nextHandle) := if normalized.repeat.value then Repeating else OneShot]
          && old(nextHandle) !in old(live)
        else
          timers == old(timers)[Key(id) := TimerMeta(delegate, timeout, None, normalized.repeat.value)]
          && live == stopped
      ensures Key(id) in old(timers) && Key(Key(id)) !in old(timers) && old(timers)[Key(id)].id.Some?
        && old(timers)[Key(id)].id.value in old(live)
        ==> old(timers)[Key(id)].id.value in live
    {
      var timerId := Key(id);
      ghost var stopped := if timerId in timers && Key(timerId) in timers
                           then Release(live, timers[Key(timerId)].id) else live;
      if timerId in timers {
        Stop(timerId);
        timers := timers - {timerId};
      }
      assert live == stopped;
      normalized := NormalizeOptions(options);
      var entry := TimerMeta(delegate, timeout, None, normalized.repeat.value);
      timers := timers[timerId := entry];
      assert timers == old(timers)[timerId := entry];
      if normalized.start.value {
        ghost var handle := nextHandle;
        Start(id);
        PutTwice(old(timers), timerId, entry, entry.(id := Some(handle)));
      }
    }
  }
}
