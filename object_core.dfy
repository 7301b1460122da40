/** Model of the property-copy helpers of o2.Object (o2.object.core.js).
    A JavaScript object is a class instance whose own enumerable properties form a map from
    names to values; the prototype chain is not modelled, so every key of `props` is an own
    key. */
module ObjectCore {

  /** The JavaScript values these helpers move around. A function value carries an identity
      for its code and, once bound, the object it is bound to. */
  datatype Value =
    | Undefined
    | Null
    | Bool(b: bool)
    | Num(n: int)
    | Str(s: string)
    | Func(code: nat, boundTo: BoundTarget)
    | Obj(ref: JsObject)

  /** The receiver a function value is bound to, if any. */
  datatype BoundTarget = Unbound | BoundTo(target: JsObject)

  class JsObject {
    var props: map<string, Value>

    constructor(props: map<string, Value>)
      ensures this.props == props
    {
      this.props := props;
    }
  }

  /** ToBoolean: `undefined`, `null`, `false`, `0` and `""` are falsy. */
  predicate Truthy(v: Value) {
    match v
    case Undefined => false
    case Null => false
    case Bool(b) => b
    case Num(n) => n != 0
    case Str(s) => s != ""
    case Func(_, _) => true
    case Obj(_) => true
  }

  /** `typeof v === 'function'`. */
  predicate IsFunction(v: Value) {
    v.Func?
  }

  /** `typeof v === 'object'`: objects and `null`, but not functions. */
  predicate IsObjectType(v: Value) {
    v.Obj? || v.Null?
  }

  /** The function-valued entries of a property map. */
  function Methods(m: map<string, Value>): (r: map<string, Value>)
    ensures forall k :: k in r <==> k in m && IsFunction(m[k])
    ensures forall k :: k in r ==> r[k] == m[k]
  {
    map k | k in m && IsFunction(m[k]) :: m[k]
  }

  /** `copy(child, base)`: every own key of `base` is written into `child`; the other keys of
      `child` keep their values. `child` and `base` may be the same object. */
  method Copy(child: JsObject, base: JsObject)
    modifies child
    ensures child.props == old(child.props) + old(base.props)
  {
    var source := base.props;
    var keys := source.Keys;
    while keys != {}
      invariant keys <= source.Keys
      invariant forall k :: k in source ==> k in base.props && base.props[k] == source[k]
      invariant child.props == old(child.props) + map k | k in source && k !in keys :: source[k]
      decreases keys
    {
      var key :| key in keys;
      child.props := child.props[key := base.props[key]];
      keys := keys - {key};
    }
    assert (map k | k in source && k !in keys :: source[k]) == source;
  }

  /** `copyMethods(child, base)`: only the function-valued own entries of `base` are copied. */
  method CopyMethods(child: JsObject, base: JsObject)
    modifies child
    ensures child.props == old(child.props) + Methods(old(base.props))
  {
    var source := base.props;
    var keys := source.Keys;
    while keys != {}
      invariant keys <= source.Keys
      invariant forall k :: k in source && IsFunction(source[k]) ==> k in base.props && base.props[k] == source[k]
      invariant child.props == old(child.props) + MethodsOutside(source, keys)
      decreases keys
    {
      var key :| key in keys;
      var value := base.props[key];
      MethodsOutsideStep(source, keys, key);
      if IsFunction(value) {
        UnionUpdate(old(child.props), MethodsOutside(source, keys), key, value);
        child.props := child.props[key := value];
      }
      keys := keys - {key};
    }
    assert MethodsOutside(source, keys) == Methods(source);
  }

  /** The function-valued entries of `source` whose keys are not in `keys`: what the copy
      loop has written so far. */
  function MethodsOutside(source: map<string, Value>, keys: set<string>): map<string, Value> {
    map k | k in source && k !in keys && IsFunction(source[k]) :: source[k]
  }

  lemma MethodsOutsideStep(source: map<string, Value>, keys: set<string>, key: string)
    requires key in keys && key in source
    ensures MethodsOutside(source, keys - {key})
      == if IsFunction(source[key]) then MethodsOutside(source, keys)[key := source[key]] else MethodsOutside(source, keys)
  {
  }

  /** Updating a union is updating its right-hand side. */
  lemma UnionUpdate<K, V>(a: map<K, V>, b: map<K, V>, k: K, v: V)
    ensures (a + b)[k := v] == a + b[k := v]
  {
  }

  /** The value of a property, `undefined` when absent. */
  function Get(o: map<string, Value>, key: string): Value {
    if key in o then o[key] else Undefined
  }

  /** The object `.prototype` refers to, when it is an object. */
  function PrototypeOf(o: JsObject): (r: set<JsObject>)
    reads o
    ensures |r| <= 1
  {
    var p := Get(o.props, "prototype");
    if p.Obj? then {p.ref} else {}
  }

  /** A `.prototype` that is missing, falsy, or an object; a truthy primitive or function
      there is not modelled. */
  predicate PrototypeShaped(o: JsObject)
    reads o
  {
    var p := Get(o.props, "prototype");
    !Truthy(p) || p.Obj?
  }

  /** `copyPrototype(child, base)`: nothing when either prototype is missing; otherwise
      `copy` from the base's prototype into the child's. */
  method CopyPrototype(child: JsObject, base: JsObject)
    requires PrototypeShaped(child) && PrototypeShaped(base)
    modifies PrototypeOf(child)
    ensures var cp := Get(old(child.props), "prototype");
            var bp := Get(old(base.props), "prototype");
            if Truthy(cp) && Truthy(bp)
            then cp.ref.props == old(cp.ref.props) + old(bp.ref.props)
            else cp.Obj? ==> cp.ref.props == old(cp.ref.props)
  {
    var baseProto := Get(base.props, "prototype");
    var childProto := Get(child.props, "prototype");
    if !Truthy(childProto) {
      return;
    }
    if !Truthy(baseProto) {
      return;
    }
    Copy(childProto.ref, baseProto.ref);
  }

  /** What `touch` returns and the arguments the delegate was called with. */
  datatype TouchResult = TouchResult(result: Value, delegateCalls: seq<Value>)

  /** `touch(obj, delegate)`: a falsy value or one whose `typeof` is not 'object' gives `null`
      without calling the delegate; an object is passed to the delegate once and returned. */
  function Touch(obj: Value): (r: TouchResult)
    ensures obj.Obj? ==> r.result == obj && r.delegateCalls == [obj]
    ensures !obj.Obj? ==> r.result == Null && r.delegateCalls == []
  {
    if !Truthy(obj) then TouchResult(Null, [])
    else if !IsObjectType(obj) then TouchResult(Null, [])
    else TouchResult(obj, [obj])
  }

  /** Copying the same base twice changes nothing the second time. */
  lemma CopyIdempotent(child: map<string, Value>, base: map<string, Value>)
    ensures (child + base) + base == child + base
  {
  }

  /** A non-function entry of the base never reaches the child through `copyMethods`. */
  lemma CopyMethodsSkipsData(child: map<string, Value>, base: map<string, Value>, k: string)
    requires k in base && !IsFunction(base[k])
    ensures Get(child + Methods(base), k) == Get(child, k)
  {
  }
}
