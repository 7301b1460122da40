/** Model of o2.JsonpState (o2.jsonpstate.js): a second supervisor with its own observer
    list, timer state and a 1001 ms interval, whose functions are AjaxState's, copied over
    and bound to it. */
module JsonpState {
  import opened Common
  import opened Supervision
  import opened ObjectCore

  const JsonpListenTimeout := 1001

  /** `o2.AjaxState`: the supervisor with a 1000 ms interval. */
  method NewAjaxState() returns (s: Supervisor)
    ensures fresh(s) && s.Valid()
    ensures s.listenTimeout == AjaxListenTimeout && s.observers == [] && s.listenTimeoutId == None
  {
    s := new Supervisor(AjaxListenTimeout);
  }

  /** `o2.JsonpState`: fresh `config`, `state` and `observers` of its own. */
  method NewJsonpState() returns (s: Supervisor)
    ensures fresh(s) && s.Valid()
    ensures s.listenTimeout == JsonpListenTimeout && s.observers == [] && s.listenTimeoutId == None
  {
    s := new Supervisor(JsonpListenTimeout);
  }

  /** Registering an observer with one supervisor, as its `addObserver` does, leaves the
      other supervisor's list alone: the two lists are separate objects. */
  method RegisterWith(target: Supervisor, other: Supervisor, observer: Controller, now: int)
    requires target != other && target.Valid() && other.Valid()
    requires observer.state == target && !observer.isDeleted
    modifies target
    ensures target.observers == old(target.observers) + [Entry(observer, Meta(now, OrNull(observer.timeout)))]
    ensures target.CountObservers() == old(target.CountObservers()) + 1
    ensures other.CountObservers() == old(other.CountObservers()) && other.observers == old(other.observers)
    ensures target.Valid() && other.Valid()
  {
    target.AddObserver(observer, now);
  }

  /** `MethodHelper.bind(root, f)`: the same code with `this` fixed to `root`. */
  function Bind(root: JsObject, f: Value): (r: Value)
    requires IsFunction(f)
    ensures IsFunction(r) && r.code == f.code && r.boundTo == BoundTo(root)
  {
    Func(f.code, BoundTo(root))
  }

  /** The function-valued own entries of `base`, bound to `root`. */
  function BoundMethods(base: map<string, Value>, root: JsObject): (r: map<string, Value>)
    ensures forall k :: k in r <==> k in base && IsFunction(base[k])
  {
    map k | k in base && IsFunction(base[k]) :: Bind(root, base[k])
  }

  /** `copy(root, base)`: each function-valued own property of `base` is written into
      `root`, bound to `root`; everything else in `root` is left as it was. */
  method CopyBound(root: JsObject, base: JsObject)
    modifies root
    ensures root.props == old(root.props) + BoundMethods(old(base.props), root)
  {
    var source := base.props;
    var keys := source.Keys;
    while keys != {}
      invariant keys <= source.Keys
      invariant forall k :: k in keys ==> k in base.props && base.props[k] == source[k]
      invariant root.props == old(root.props) + BoundOutside(source, keys, root)
      decreases keys
    {
      var key :| key in keys;
      var value := base.props[key];
      BoundOutsideStep(source, keys, key, root);
      if IsFunction(value) {
        UnionUpdate(old(root.props), BoundOutside(source, keys, root), key, Bind(root, value));
        root.props := root.props[key := Bind(root, value)];
      }
      keys := keys - {key};
    }
    assert BoundOutside(source, keys, root) == BoundMethods(source, root);
  }

  /** The functions of `source` whose keys are not in `keys`, bound to `root`: what the
      copy loop has written so far. */
  function BoundOutside(source: map<string, Value>, keys: set<string>, root: JsObject): map<string, Value> {
    map k | k in source && k !in keys && IsFunction(source[k]) :: Bind(root, source[k])
  }

  lemma BoundOutsideStep(source: map<string, Value>, keys: set<string>, key: string, root: JsObject)
    requires key in keys && key in source
    ensures BoundOutside(source, keys - {key}, root)
      == if IsFunction(source[key]) then BoundOutside(source, keys, root)[key := Bind(root, source[key])]
         else BoundOutside(source, keys, root)
  {
  }

  /** After the copy, a member of `root` that `base` has no function for, such as
      `protecteds`, `config` or `observers`, keeps its value. */
  lemma CopyKeepsOwnData(root: JsObject, rootProps: map<string, Value>, base: map<string, Value>, k: string)
    requires k in rootProps && (k !in base || !IsFunction(base[k]))
    ensures k in rootProps + BoundMethods(base, root)
    ensures (rootProps + BoundMethods(base, root))[k] == rootProps[k]
  {
  }

  /** After the copy, every function of `base` is present on `root`, bound to `root`, so it
      acts on `root`'s own `protecteds`. */
  lemma CopyBindsEveryMethod(root: JsObject, rootProps: map<string, Value>, base: map<string, Value>, k: string)
    requires k in base && IsFunction(base[k])
    ensures k in rootProps + BoundMethods(base, root)
    ensures (rootProps + BoundMethods(base, root))[k] == Func(base[k].code, BoundTo(root))
  {
  }
}
