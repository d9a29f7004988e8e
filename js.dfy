/**
 * The slice of JavaScript values that `createActions` inspects: strings, functions,
 * arrays, plain objects, `undefined`, and everything else lumped together.
 * A plain object keeps its keys in insertion order, as `Object.keys` reports them.
 */
module Js {

  /** The outcome of a call that may throw: `Failure` carries the thrown message. */
  datatype Result<T> = Ok(value: T) | Failure(message: string)

  /** Function values. An action creator is recorded by the arguments it was built from. */
  datatype Function =
    | Identity                    // lodash `identity`
    | UserFunction(id: nat)       // a function written by the caller; `id` tells them apart
    | ActionCreator(actionType: string, payloadCreator: JsValue, metaCreator: JsValue)

  datatype JsValue =
    | Undefined
    | Str(s: string)
    | Fn(f: Function)
    | Arr(elems: seq<JsValue>)
    | PlainObj(obj: Obj)
    | Other                       // numbers, booleans, null, class instances, ...

  /**
   * A plain object: `keys` in `Object.keys` order, `vals` the property values.
   * Every object built by this model is `Valid`.
   */
  datatype Obj = Obj(keys: seq<string>, vals: map<string, JsValue>) {

    ghost predicate Valid() {
      && (forall i, j :: 0 <= i < j < |keys| ==> keys[i] != keys[j])
      && (forall k :: k in vals <==> k in keys)
    }

    /** Property read `o[k]`: a missing property reads as `undefined`. */
    function Get(k: string): (v: JsValue) {
      if k in vals then vals[k] else Undefined
    }

    /** `{ ...this, [k]: v }`: an existing key keeps its place, a new key goes last. */
    function With(k: string, v: JsValue): (r: Obj)
      ensures r.Get(k) == v
      ensures forall k' :: k' != k ==> r.Get(k') == Get(k')
      ensures forall k' :: k' in r.keys <==> k' in keys || k' == k
      ensures k in keys ==> r.keys == keys
      ensures k !in keys ==> r.keys == keys + [k]
      ensures Valid() ==> r.Valid()
    {
      Obj(if k in keys then keys else keys + [k], vals[k := v])
    }
  }

  /** The object literal `{}`. */
  const Empty: Obj := Obj([], map[])

  /** lodash `last`: the final element, or `undefined` for an empty array. */
  function Last(xs: seq<JsValue>): (r: JsValue)
    ensures xs == [] ==> r == Undefined
    ensures xs != [] ==> xs == xs[..|xs| - 1] + [r]
  {
    if xs == [] then Undefined else xs[|xs| - 1]
  }

  /** `xs.every(isString)`. */
  predicate AllStrings(xs: seq<JsValue>) {
    forall i :: 0 <= i < |xs| ==> xs[i].Str?
  }

  /** The strings of an array that holds only strings. */
  function Strings(xs: seq<JsValue>): (r: seq<string>)
    requires AllStrings(xs)
    ensures |r| == |xs|
    ensures forall i :: 0 <= i < |xs| ==> xs[i] == Str(r[i])
  {
    seq(|xs|, i requires 0 <= i < |xs| => xs[i].s)
  }

  /**
   * `{ ...a, ...b }`: every own property of `b`, in `b`'s key order, written over a copy of `a`.
   */
  function Spread(a: Obj, b: Obj): (r: Obj)
    ensures forall k :: r.Get(k) == if k in b.keys then b.Get(k) else a.Get(k)
    ensures forall k :: k in r.keys <==> k in a.keys || k in b.keys
    ensures |a.keys| <= |r.keys| && r.keys[..|a.keys|] == a.keys
    ensures a.Valid() && b.Valid() ==> r.Valid()
  {
    SpreadKeys(a, b, b.keys)
  }

  /** `a` with the properties of `b` named by `ks` written over it, in the order of `ks`. */
  function SpreadKeys(a: Obj, b: Obj, ks: seq<string>): (r: Obj)
    ensures forall k :: r.Get(k) == if k in ks then b.Get(k) else a.Get(k)
    ensures forall k :: k in r.keys <==> k in a.keys || k in ks
    ensures |a.keys| <= |r.keys| && r.keys[..|a.keys|] == a.keys
    ensures a.Valid() ==> r.Valid()
    decreases |ks|
  {
    if ks == [] then a
    else
      var k := ks[|ks| - 1];
      SpreadKeys(a, b, ks[..|ks| - 1]).With(k, b.Get(k))
  }

  /**
   * lodash `defaults(o, { [key]: fallback })`: the property is filled in only when it
   * reads as `undefined`.
   */
  function Defaults(o: Obj, key: string, fallback: JsValue): (r: Obj)
    ensures r.Get(key) == if o.Get(key) == Undefined then fallback else o.Get(key)
    ensures forall k :: k != key ==> r.Get(k) == o.Get(k)
    ensures o.Valid() ==> r.Valid()
  {
    if o.Get(key) == Undefined then o.With(key, fallback) else o
  }
}
