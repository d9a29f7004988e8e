/**
 * `createActions(actionMap, ...identityActions)` from src/createActions.js: build a map of
 * action creators from an action map (possibly nested, flattened by namespace) and/or a
 * list of identity action types, with an optional trailing options object.
 */
module CreateActions {
  import opened Js
  import opened Collaborators

  /** Thrown when the arguments do not have the expected shape (src/createActions.js:29). */
  const ArgumentsMessage: string := "Expected optional object followed by string action types"

  /** Thrown for an action map leaf that is not a valid transform (src/createActions.js:61-62). */
  function LeafMessage(actionType: string): (m: string)
    ensures |m| > |ArgumentsMessage|
  {
    "Expected function, undefined, or array with payload and meta functions for " + actionType
  }

  // ---------------------------------------------------------------------------
  // actionMapToActionCreators

  /**
   * `isValidActionMapValue`: a function, or an array destructured as
   * `[payload = identity, meta]` whose payload and meta are both functions.
   */
  predicate IsValidActionMapValue(v: JsValue): (b: bool)
    ensures b ==> v.Fn? || v.Arr?
    ensures b && v.Arr? ==> |v.elems| >= 2 && v.elems[1].Fn?
  {
    match v
    case Fn(_) => true
    case Arr(elems) => ElementOr(elems, 0, Fn(Identity)).Fn? && ElementOr(elems, 1, Undefined).Fn?
    case _ => false
  }

  /** The action creator built for one leaf: an array is spread into `createAction`. */
  function CreatorFor(actionType: string, v: JsValue): (c: JsValue)
    ensures c.Fn? && c.f.ActionCreator? && c.f.actionType == actionType
  {
    if v.Arr? then Fn(CreateAction(actionType, v.elems)) else Fn(CreateAction(actionType, [v]))
  }

  /** The reducer handed to `arrayToObject` by `actionMapToActionCreators`. */
  function CreatorStep(flat: Obj): (Obj, string) -> Result<Obj> {
    (acc: Obj, actionType: string) =>
      var v := flat.Get(actionType);
      if !IsValidActionMapValue(v) then Failure(LeafMessage(actionType))
      else Ok(acc.With(actionType, CreatorFor(actionType, v)))
  }

  /** `i` is the first position of `xs` whose leaf in `flat` is invalid. */
  ghost predicate FirstInvalid(flat: Obj, xs: seq<string>, i: int) {
    && 0 <= i < |xs|
    && !IsValidActionMapValue(flat.Get(xs[i]))
    && forall j :: 0 <= j < i ==> IsValidActionMapValue(flat.Get(xs[j]))
  }

  /**
   * `actionMapToActionCreators(flatActionMap)`: one creator per key, under the same key,
   * or the error for the first invalid leaf in key order and nothing else.
   */
  function ActionMapToActionCreators(flat: Obj): (r: Result<Obj>)
    ensures r.Ok? <==> forall i :: 0 <= i < |flat.keys| ==> IsValidActionMapValue(flat.Get(flat.keys[i]))
    ensures r.Failure? ==>
      exists i :: FirstInvalid(flat, flat.keys, i) && r.message == LeafMessage(flat.keys[i])
    ensures r.Ok? ==> r.value.Valid()
    ensures r.Ok? ==> forall k :: k in r.value.keys <==> k in flat.keys
    ensures r.Ok? ==> forall k :: k in flat.keys ==> r.value.Get(k) == CreatorFor(k, flat.Get(k))
    ensures r.Ok? && flat.Valid() ==> r.value.keys == flat.keys
  {
    CreatorFold(flat, flat.keys);
    var r := ArrayToObject(flat.keys, CreatorStep(flat));
    if r.Ok? then
      SetFold(flat.keys, CreatorStep(flat), k => k, k => CreatorFor(k, flat.Get(k)));
      r
    else
      r
  }

  /** `actionCreatorsFromActionMap`: flatten, build the creators, unflatten. */
  function ActionCreatorsFromActionMap(env: Env, actionMap: Obj, namespace: JsValue): (r: Result<Obj>)
    ensures var flat := env.flattenActionMap(actionMap, namespace);
      r.Ok? <==> forall i :: 0 <= i < |flat.keys| ==> IsValidActionMapValue(flat.Get(flat.keys[i]))
    ensures var flat := env.flattenActionMap(actionMap, namespace);
      r.Failure? ==> exists i :: FirstInvalid(flat, flat.keys, i) && r.message == LeafMessage(flat.keys[i])
    ensures var flat := env.flattenActionMap(actionMap, namespace);
      r.Ok? ==> exists creators: Obj ::
        && r.value == env.unflattenActionCreators(creators, namespace)
        && (forall k :: k in creators.keys <==> k in flat.keys)
        && (forall k :: k in flat.keys ==> creators.Get(k) == CreatorFor(k, flat.Get(k)))
  {
    var flatActionMap := env.flattenActionMap(actionMap, namespace);
    match ActionMapToActionCreators(flatActionMap)
    case Failure(e) => Failure(e)
    case Ok(flatActionCreators) => Ok(env.unflattenActionCreators(flatActionCreators, namespace))
  }

  // ---------------------------------------------------------------------------
  // actionCreatorsFromIdentityActions

  /** The reducer building `{ [type]: identity }` for every identity action type. */
  function IdentityStep(): (Obj, string) -> Result<Obj> {
    (acc: Obj, actionType: string) => Ok(acc.With(actionType, Fn(Identity)))
  }

  /** The reducer re-keying each creator by `camelCase(type)`. */
  function CamelStep(camelCase: string -> string, actionCreators: Obj): (Obj, string) -> Result<Obj> {
    (acc: Obj, actionType: string) => Ok(acc.With(camelCase(actionType), actionCreators.Get(actionType)))
  }

  /**
   * The first half of `actionCreatorsFromIdentityActions`: the map `{ [type]: identity }`
   * and the creators `actionMapToActionCreators` builds from it (src/createActions.js:72-76).
   */
  function IdentityActionCreators(identityActions: seq<string>): (r: Obj)
    ensures forall t :: t in r.keys <==> t in identityActions
    ensures forall t :: t in r.keys ==> r.Get(t) == Fn(ActionCreator(t, Fn(Identity), Undefined))
    ensures Distinct(identityActions) ==> r.keys == identityActions
  {
    IdentityActionMap(identityActions);
    var actionMap := ArrayToObject(identityActions, IdentityStep()).value;
    ActionMapToActionCreators(actionMap).value
  }

  /** The map `{ [type]: identity }` has exactly the given types as keys, in order when distinct. */
  lemma IdentityActionMap(identityActions: seq<string>)
    ensures ArrayToObject(identityActions, IdentityStep()).Ok?
    ensures var actionMap := ArrayToObject(identityActions, IdentityStep()).value;
      && actionMap.Valid()
      && (forall t :: t in actionMap.keys <==> t in identityActions)
      && (forall t :: t in actionMap.keys ==> actionMap.Get(t) == Fn(Identity))
      && (Distinct(identityActions) ==> actionMap.keys == identityActions)
  {
    var key, val := t => t, t => Fn(Identity);
    assert WritesEach(identityActions, IdentityStep(), key, val);
    SetFoldKeys(identityActions, IdentityStep(), key, val);
    var actionMap := ArrayToObject(identityActions, IdentityStep()).value;
    forall t | t in actionMap.keys ensures actionMap.Get(t) == Fn(Identity) {
      SetFoldWriter(identityActions, IdentityStep(), key, val);
    }
    forall t ensures t in actionMap.keys <==> t in identityActions {
      if t in identityActions {
        assert key(t) == t;
      }
    }
    if Distinct(identityActions) {
      SetFoldDistinct(identityActions, IdentityStep(), key, val);
    }
  }

  /**
   * `actionCreatorsFromIdentityActions(identityActions)`: the identity-action creators
   * re-keyed by `camelCase(type)`: every type's camel-cased name is a key. `IdentityActionOutput`
   * states that there are no other keys and what each holds.
   */
  function ActionCreatorsFromIdentityActions(camelCase: string -> string, identityActions: seq<string>): (r: Obj)
    ensures r.Valid()
    ensures forall t :: t in identityActions ==> camelCase(t) in r.keys
  {
    var actionCreators := IdentityActionCreators(identityActions);
    SetFoldKeys(actionCreators.keys, CamelStep(camelCase, actionCreators), camelCase, t => actionCreators.Get(t));
    ArrayToObject(actionCreators.keys, CamelStep(camelCase, actionCreators)).value
  }

  /**
   * The identity-action creators: one key `camelCase(t)` per type `t` and no other key, each
   * bound to the creator of a type `t` with that key, identity payload and no meta.
   */
  lemma IdentityActionOutput(camelCase: string -> string, identityActions: seq<string>)
    ensures var r := ActionCreatorsFromIdentityActions(camelCase, identityActions);
      && r.Valid()
      && (forall k :: k in r.keys <==> exists t :: t in identityActions && camelCase(t) == k)
      && (forall k :: k in r.keys ==>
            exists t :: t in identityActions && camelCase(t) == k
              && r.Get(k) == Fn(ActionCreator(t, Fn(Identity), Undefined)))
  {
    var actionCreators := IdentityActionCreators(identityActions);
    SetFoldKeys(actionCreators.keys, CamelStep(camelCase, actionCreators), camelCase, t => actionCreators.Get(t));
    SetFoldWriter(actionCreators.keys, CamelStep(camelCase, actionCreators), camelCase, t => actionCreators.Get(t));
  }

  /** Among distinct types whose camel-cased names collide, the one given last wins. */
  lemma IdentityActionLastWins(camelCase: string -> string, identityActions: seq<string>)
    requires Distinct(identityActions)
    ensures var r := ActionCreatorsFromIdentityActions(camelCase, identityActions);
      forall i :: LastWriter(identityActions, camelCase, i) ==>
        r.Get(camelCase(identityActions[i])) == Fn(ActionCreator(identityActions[i], Fn(Identity), Undefined))
  {
    var actionCreators := IdentityActionCreators(identityActions);
    SetFoldLastWins(actionCreators.keys, CamelStep(camelCase, actionCreators), camelCase, t => actionCreators.Get(t));
  }

  /** When no two camel-cased names collide, the keys come out in the order of the types. */
  lemma IdentityActionKeyOrder(camelCase: string -> string, identityActions: seq<string>)
    requires forall i, j :: 0 <= i < j < |identityActions| ==>
      camelCase(identityActions[i]) != camelCase(identityActions[j])
    ensures var r := ActionCreatorsFromIdentityActions(camelCase, identityActions);
      && |r.keys| == |identityActions|
      && forall i :: 0 <= i < |identityActions| ==> r.keys[i] == camelCase(identityActions[i])
  {
    assert Distinct(identityActions);
    var actionCreators := IdentityActionCreators(identityActions);
    SetFoldDistinct(actionCreators.keys, CamelStep(camelCase, actionCreators), camelCase, t => actionCreators.Get(t));
  }

  /** No action type occurs twice. */
  ghost predicate Distinct(xs: seq<string>) {
    forall i, j :: 0 <= i < j < |xs| ==> xs[i] != xs[j]
  }

  // ---------------------------------------------------------------------------
  // createActions

  /** The identity-action list once the options object is split off, and the full options. */
  datatype FullOptionsResult = FullOptionsResult(identityActions: seq<JsValue>, options: Obj)

  /**
   * `getFullOptions`: a trailing plain object is removed from the identity actions and
   * becomes the options; `namespace` falls back to the default namespace.
   */
  function FullOptions(env: Env, identityActions: seq<JsValue>): (r: FullOptionsResult)
    ensures Last(identityActions).PlainObj? ==> identityActions == r.identityActions + [Last(identityActions)]
    ensures !Last(identityActions).PlainObj? ==> r.identityActions == identityActions
    ensures r.options.Get("namespace") ==
      if Last(identityActions).PlainObj? && Last(identityActions).obj.Get("namespace") != Undefined
      then Last(identityActions).obj.Get("namespace")
      else env.defaultNamespace
    ensures forall k :: k != "namespace" ==>
      r.options.Get(k) == if Last(identityActions).PlainObj? then Last(identityActions).obj.Get(k) else Undefined
  {
    var popped := Last(identityActions).PlainObj?;
    var partialOptions := if popped then Last(identityActions).obj else Empty;
    FullOptionsResult(
      if popped then identityActions[..|identityActions| - 1] else identityActions,
      Defaults(partialOptions, "namespace", env.defaultNamespace))
  }

  /** The check on the arguments (src/createActions.js:26-30). */
  predicate WellShapedArguments(actionMap: JsValue, identityActions: seq<JsValue>) {
    AllStrings(identityActions) && (actionMap.Str? || actionMap.PlainObj?)
  }

  /** What `createActions` does once the options are split off (src/createActions.js:26-37). */
  function Dispatch(env: Env, actionMap: JsValue, identityActions: seq<JsValue>, namespace: JsValue): (r: Result<Obj>)
    ensures r == Failure(ArgumentsMessage) <==> !WellShapedArguments(actionMap, identityActions)
    ensures actionMap.Str? && WellShapedArguments(actionMap, identityActions) ==> r.Ok?
  {
    if !WellShapedArguments(actionMap, identityActions) then Failure(ArgumentsMessage)
    else if actionMap.Str? then
      Ok(ActionCreatorsFromIdentityActions(env.camelCase, [actionMap.s] + Strings(identityActions)))
    else
      match ActionCreatorsFromActionMap(env, actionMap.obj, namespace)
      case Failure(e) => Failure(e)
      case Ok(fromMap) => Ok(Spread(fromMap, ActionCreatorsFromIdentityActions(env.camelCase, Strings(identityActions))))
  }

  /** `createActions(actionMap, ...identityActions)` as a function of its arguments. */
  function CreateActionsModel(env: Env, actionMap: JsValue, identityActions: seq<JsValue>): (r: Result<Obj>)
    ensures r.Ok? ==> WellShapedArguments(actionMap, FullOptions(env, identityActions).identityActions)
  {
    var full := FullOptions(env, identityActions);
    Dispatch(env, actionMap, full.identityActions, full.options.Get("namespace"))
  }

  /** The rest-parameter array `identityActions`, which `getFullOptions` shortens in place. */
  class ArgList {
    var items: seq<JsValue>

    constructor (xs: seq<JsValue>)
      ensures items == xs
    {
      items := xs;
    }

    /** `Array.prototype.pop`: removes and returns the last element; `undefined` when empty. */
    method Pop() returns (x: JsValue)
      modifies this
      ensures x == Last(old(items))
      ensures old(items) == [] ==> items == []
      ensures old(items) != [] ==> old(items) == items + [x]
    {
      if items == [] {
        x := Undefined;
      } else {
        x := items[|items| - 1];
        items := items[..|items| - 1];
      }
    }
  }

  /** `getFullOptions()`, popping the options object off the identity actions. */
  method GetFullOptions(env: Env, identityActions: ArgList) returns (options: Obj)
    modifies identityActions
    ensures identityActions.items == FullOptions(env, old(identityActions.items)).identityActions
    ensures options == FullOptions(env, old(identityActions.items)).options
  {
    var partialOptions := Empty;
    if Last(identityActions.items).PlainObj? {
      var popped := identityActions.Pop();
      partialOptions := popped.obj;
    }
    options := Defaults(partialOptions, "namespace", env.defaultNamespace);
  }

  /** `createActions(actionMap, ...identityActions)`. */
  method CreateActions(env: Env, actionMap: JsValue, identityActions: seq<JsValue>) returns (r: Result<Obj>)
    ensures r == CreateActionsModel(env, actionMap, identityActions)
  {
    var rest := new ArgList(identityActions);
    var options := GetFullOptions(env, rest);
    var namespace := options.Get("namespace");
    r := Dispatch(env, actionMap, rest.items, namespace);
  }

  // ---------------------------------------------------------------------------
  // Folds

  /** Every step of `step` over `xs` writes `val(x)` under `key(x)`. */
  ghost predicate WritesEach(xs: seq<string>, step: (Obj, string) -> Result<Obj>,
                             key: string -> string, val: string -> JsValue) {
    forall acc: Obj, x :: x in xs ==> step(acc, x) == Ok(acc.With(key(x), val(x)))
  }

  /**
   * A fold whose every step writes `val(x)` under `key(x)` never fails, builds a valid
   * object whose keys are exactly the `key(x)`, where the last write to a key wins.
   */
  lemma SetFold(xs: seq<string>, step: (Obj, string) -> Result<Obj>,
                key: string -> string, val: string -> JsValue)
    requires WritesEach(xs, step, key, val)
    ensures ArrayToObject(xs, step).Ok?
    ensures ArrayToObject(xs, step).value.Valid()
    ensures forall k :: k in ArrayToObject(xs, step).value.keys <==> exists x :: x in xs && key(x) == k
    ensures forall k :: k in ArrayToObject(xs, step).value.keys ==>
      exists x :: x in xs && key(x) == k && ArrayToObject(xs, step).value.Get(k) == val(x)
    ensures forall i :: LastWriter(xs, key, i) ==> ArrayToObject(xs, step).value.Get(key(xs[i])) == val(xs[i])
    ensures (forall i, j :: 0 <= i < j < |xs| ==> key(xs[i]) != key(xs[j])) ==>
      && |ArrayToObject(xs, step).value.keys| == |xs|
      && forall i :: 0 <= i < |xs| ==> ArrayToObject(xs, step).value.keys[i] == key(xs[i])
  {
    SetFoldKeys(xs, step, key, val);
    SetFoldWriter(xs, step, key, val);
    SetFoldLastWins(xs, step, key, val);
    if forall i, j :: 0 <= i < j < |xs| ==> key(xs[i]) != key(xs[j]) {
      SetFoldDistinct(xs, step, key, val);
    }
  }

  lemma {:induction false} SetFoldKeys(xs: seq<string>, step: (Obj, string) -> Result<Obj>,
                                       key: string -> string, val: string -> JsValue)
    requires WritesEach(xs, step, key, val)
    ensures ArrayToObject(xs, step).Ok?
    ensures ArrayToObject(xs, step).value.Valid()
    ensures forall k :: k in ArrayToObject(xs, step).value.keys <==> exists x :: x in xs && key(x) == k
  {
    if xs != [] {
      var front, x := xs[..|xs| - 1], xs[|xs| - 1];
      WritesEachFront(xs, step, key, val);
      SetFoldKeys(front, step, key, val);
      FoldLastStep(xs, step, key, val);
      var acc := ArrayToObject(front, step).value;
      var r := ArrayToObject(xs, step).value;
      forall k | exists y :: y in xs && key(y) == k
        ensures k in r.keys
      {
        var y :| y in xs && key(y) == k;
        if y != x {
          var i :| 0 <= i < |xs| && xs[i] == y;
          assert front[i] == y;
        }
      }
      forall k | k in r.keys
        ensures exists y :: y in xs && key(y) == k
      {
        if k != key(x) {
          var y :| y in front && key(y) == k;
          assert y in xs;
        }
      }
    }
  }

  lemma {:induction false} SetFoldWriter(xs: seq<string>, step: (Obj, string) -> Result<Obj>,
                                         key: string -> string, val: string -> JsValue)
    requires WritesEach(xs, step, key, val)
    ensures ArrayToObject(xs, step).Ok?
    ensures forall k :: k in ArrayToObject(xs, step).value.keys ==>
      exists x :: x in xs && key(x) == k && ArrayToObject(xs, step).value.Get(k) == val(x)
  {
    SetFoldKeys(xs, step, key, val);
    if xs != [] {
      var front, x := xs[..|xs| - 1], xs[|xs| - 1];
      assert forall y :: y in front ==> y in xs;
      SetFoldWriter(front, step, key, val);
      var acc := ArrayToObject(front, step).value;
      var r := ArrayToObject(xs, step).value;
      assert r == acc.With(key(x), val(x));
      forall k | k in r.keys
        ensures exists y :: y in xs && key(y) == k && r.Get(k) == val(y)
      {
        if k == key(x) {
          assert x in xs;
        } else {
          var y :| y in front && key(y) == k && acc.Get(k) == val(y);
          assert y in xs;
        }
      }
    }
  }

  /** The fold over `xs` is the fold over all but the last element, then one more write. */
  lemma FoldLastStep(xs: seq<string>, step: (Obj, string) -> Result<Obj>,
                     key: string -> string, val: string -> JsValue)
    requires xs != [] && WritesEach(xs, step, key, val)
    requires ArrayToObject(xs[..|xs| - 1], step).Ok?
    ensures WritesEach(xs[..|xs| - 1], step, key, val)
    ensures ArrayToObject(xs, step)
         == Ok(ArrayToObject(xs[..|xs| - 1], step).value.With(key(xs[|xs| - 1]), val(xs[|xs| - 1])))
  {
    assert xs[|xs| - 1] in xs;
    assert forall y :: y in xs[..|xs| - 1] ==> y in xs;
  }

  /** No element after position `i` of `xs` has the same key as `xs[i]`. */
  ghost predicate LastWriter(xs: seq<string>, key: string -> string, i: int) {
    0 <= i < |xs| && forall j :: i < j < |xs| ==> key(xs[j]) != key(xs[i])
  }

  lemma SetFoldLastWins(xs: seq<string>, step: (Obj, string) -> Result<Obj>,
                        key: string -> string, val: string -> JsValue)
    requires WritesEach(xs, step, key, val)
    ensures ArrayToObject(xs, step).Ok?
    ensures forall i :: LastWriter(xs, key, i) ==> ArrayToObject(xs, step).value.Get(key(xs[i])) == val(xs[i])
  {
    SetFoldKeys(xs, step, key, val);
    forall i | LastWriter(xs, key, i)
      ensures ArrayToObject(xs, step).value.Get(key(xs[i])) == val(xs[i])
    {
      SetFoldLastWinsAt(xs, step, key, val, i);
    }
  }

  lemma {:induction false} SetFoldLastWinsAt(xs: seq<string>, step: (Obj, string) -> Result<Obj>,
                                             key: string -> string, val: string -> JsValue, i: int)
    requires WritesEach(xs, step, key, val)
    requires LastWriter(xs, key, i)
    ensures ArrayToObject(xs, step).Ok?
    ensures ArrayToObject(xs, step).value.Get(key(xs[i])) == val(xs[i])
  {
    var front, x := xs[..|xs| - 1], xs[|xs| - 1];
    WritesEachFront(xs, step, key, val);
    SetFoldKeys(front, step, key, val);
    FoldLastStep(xs, step, key, val);
    if i < |front| {
      assert key(x) != key(xs[i]);
      assert front[i] == xs[i];
      assert LastWriter(front, key, i) by {
        forall j | i < j < |front| ensures key(front[j]) != key(front[i]) {
          assert front[j] == xs[j];
        }
      }
      SetFoldLastWinsAt(front, step, key, val, i);
    }
  }

  /** Every step over all but the last element writes one key, as over the whole list. */
  lemma WritesEachFront(xs: seq<string>, step: (Obj, string) -> Result<Obj>,
                        key: string -> string, val: string -> JsValue)
    requires xs != [] && WritesEach(xs, step, key, val)
    ensures WritesEach(xs[..|xs| - 1], step, key, val)
  {
    assert forall y :: y in xs[..|xs| - 1] ==> y in xs;
  }

  lemma {:induction false} SetFoldDistinct(xs: seq<string>, step: (Obj, string) -> Result<Obj>,
                                           key: string -> string, val: string -> JsValue)
    requires WritesEach(xs, step, key, val)
    requires forall i, j :: 0 <= i < j < |xs| ==> key(xs[i]) != key(xs[j])
    ensures ArrayToObject(xs, step).Ok?
    ensures |ArrayToObject(xs, step).value.keys| == |xs|
    ensures forall i :: 0 <= i < |xs| ==> ArrayToObject(xs, step).value.keys[i] == key(xs[i])
  {
    if xs == [] {
      SetFoldKeys(xs, step, key, val);
    } else {
      var front, x := xs[..|xs| - 1], xs[|xs| - 1];
      WritesEachFront(xs, step, key, val);
      assert forall i, j :: 0 <= i < j < |front| ==> key(front[i]) != key(front[j]) by {
        forall i, j | 0 <= i < j < |front| ensures key(front[i]) != key(front[j]) {
          assert front[i] == xs[i] && front[j] == xs[j];
        }
      }
      SetFoldDistinct(front, step, key, val);
      FoldLastStep(xs, step, key, val);
      var acc := ArrayToObject(front, step).value;
      assert key(x) !in acc.keys by {
        forall i | 0 <= i < |front| ensures acc.keys[i] != key(x) {
          assert front[i] == xs[i];
        }
      }
      assert ArrayToObject(xs, step).value.keys == acc.keys + [key(x)];
    }
  }

  /**
   * The creators fold fails exactly when some leaf of `xs` is invalid, and then with the
   * message for the first one.
   */
  lemma {:induction false} CreatorFold(flat: Obj, xs: seq<string>)
    ensures ArrayToObject(xs, CreatorStep(flat)).Ok? <==>
      forall i :: 0 <= i < |xs| ==> IsValidActionMapValue(flat.Get(xs[i]))
    ensures ArrayToObject(xs, CreatorStep(flat)).Failure? ==>
      exists i :: FirstInvalid(flat, xs, i) && ArrayToObject(xs, CreatorStep(flat)).message == LeafMessage(xs[i])
  {
    if xs != [] {
      var front, x := xs[..|xs| - 1], xs[|xs| - 1];
      CreatorFold(flat, front);
      assert forall i :: 0 <= i < |front| ==> front[i] == xs[i];
      var r := ArrayToObject(xs, CreatorStep(flat));
      if ArrayToObject(front, CreatorStep(flat)).Failure? {
        var i :| FirstInvalid(flat, front, i) && ArrayToObject(front, CreatorStep(flat)).message == LeafMessage(front[i]);
        assert FirstInvalid(flat, xs, i);
      } else if !IsValidActionMapValue(flat.Get(x)) {
        assert FirstInvalid(flat, xs, |xs| - 1);
      }
    }
  }
}
