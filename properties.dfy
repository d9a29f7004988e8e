/**
 * What `createActions` promises, stated over `CreateActionsModel` and the functions
 * it is built from.
 */
module CreateActionsProperties {
  import opened Js
  import opened Collaborators
  import opened CreateActions

  /**
   * A leaf is accepted exactly when it is a function, or an array whose first element is a
   * function or `undefined` (defaulting to identity) and whose second element is a function.
   */
  lemma LeafValidity(v: JsValue)
    ensures IsValidActionMapValue(v) <==>
      || v.Fn?
      || (&& v.Arr? && |v.elems| >= 2
          && (v.elems[0].Fn? || v.elems[0] == Undefined)
          && v.elems[1].Fn?)
  {
  }

  /**
   * The creator built for a valid leaf has the leaf's type and a function as payload
   * transform. A function leaf becomes the payload transform with no meta transform; an array
   * leaf gives its first element (identity when `undefined`) and its second element as meta.
   */
  lemma CreatorConstruction(actionType: string, v: JsValue)
    requires IsValidActionMapValue(v)
    ensures var c := CreatorFor(actionType, v);
      && c.Fn? && c.f.ActionCreator? && c.f.actionType == actionType
      && c.f.payloadCreator.Fn?
      && (v.Fn? ==> c.f.payloadCreator == v && c.f.metaCreator == Undefined)
      && (v.Arr? ==>
            && c.f.metaCreator == v.elems[1] && c.f.metaCreator.Fn?
            && c.f.payloadCreator == if v.elems[0] == Undefined then Fn(Identity) else v.elems[0])
  {
  }

  /**
   * The call fails with the arguments message exactly when, after the options object is
   * split off, some identity action is not a string or the first argument is neither a
   * string nor a plain object. An invalid leaf fails with a different message.
   */
  lemma ArgumentCheck(env: Env, actionMap: JsValue, identityActions: seq<JsValue>)
    ensures var rest := FullOptions(env, identityActions).identityActions;
      CreateActionsModel(env, actionMap, identityActions) == Failure(ArgumentsMessage)
      <==> !(AllStrings(rest) && (actionMap.Str? || actionMap.PlainObj?))
  {
  }

  /**
   * With a string first argument the result is exactly the identity-action creators of the
   * first argument followed by the other identity actions: one key `camelCase(t)` per type and
   * no other. The flattening helpers, the namespace and the default namespace play no part.
   */
  lemma StringFirstArgument(env: Env, s: string, identityActions: seq<JsValue>,
                            flatten: (Obj, JsValue) -> Obj, unflatten: (Obj, JsValue) -> Obj,
                            defaultNamespace: JsValue)
    requires AllStrings(FullOptions(env, identityActions).identityActions)
    ensures var rest := FullOptions(env, identityActions).identityActions;
      CreateActionsModel(env, Str(s), identityActions)
      == Ok(ActionCreatorsFromIdentityActions(env.camelCase, [s] + Strings(rest)))
    ensures var other := env.(flattenActionMap := flatten, unflattenActionCreators := unflatten,
                              defaultNamespace := defaultNamespace);
      CreateActionsModel(other, Str(s), identityActions) == CreateActionsModel(env, Str(s), identityActions)
    ensures var types := [s] + Strings(FullOptions(env, identityActions).identityActions);
      var r := CreateActionsModel(env, Str(s), identityActions).value;
      && (forall k :: k in r.keys <==> exists t :: t in types && env.camelCase(t) == k)
      && (forall k :: k in r.keys ==>
            exists t :: t in types && env.camelCase(t) == k
              && r.Get(k) == Fn(ActionCreator(t, Fn(Identity), Undefined)))
  {
    IdentityActionOutput(env.camelCase, [s] + Strings(FullOptions(env, identityActions).identityActions));
  }

  /**
   * With a plain-object first argument, a failure of the action map is the failure of the
   * call; otherwise the result holds the keys of both parts, and on a shared key the
   * identity action's creator wins over the action map's.
   */
  lemma MergeOrder(env: Env, actionMap: Obj, identityActions: seq<JsValue>)
    requires AllStrings(FullOptions(env, identityActions).identityActions)
    ensures var full := FullOptions(env, identityActions);
      var fromMap := ActionCreatorsFromActionMap(env, actionMap, full.options.Get("namespace"));
      var r := CreateActionsModel(env, PlainObj(actionMap), identityActions);
      fromMap.Failure? ==> r == Failure(fromMap.message)
    ensures var full := FullOptions(env, identityActions);
      var fromMap := ActionCreatorsFromActionMap(env, actionMap, full.options.Get("namespace"));
      var fromIdentity := ActionCreatorsFromIdentityActions(env.camelCase, Strings(full.identityActions));
      var r := CreateActionsModel(env, PlainObj(actionMap), identityActions);
      fromMap.Ok? ==>
        && r.Ok?
        && (forall k :: k in r.value.keys <==> k in fromMap.value.keys || k in fromIdentity.keys)
        && (forall k :: k in fromIdentity.keys ==> r.value.Get(k) == fromIdentity.Get(k))
        && (forall k :: k !in fromIdentity.keys ==> r.value.Get(k) == fromMap.value.Get(k))
  {
  }

  /**
   * With a plain-object first argument and a successful action map, the key `camelCase(t)`
   * of every identity action `t` holds an identity creator, whatever the action map holds there.
   */
  lemma IdentityActionsWin(env: Env, actionMap: Obj, identityActions: seq<JsValue>, t: string)
    requires AllStrings(FullOptions(env, identityActions).identityActions)
    requires t in Strings(FullOptions(env, identityActions).identityActions)
    requires ActionCreatorsFromActionMap(env, actionMap,
               FullOptions(env, identityActions).options.Get("namespace")).Ok?
    ensures var types := Strings(FullOptions(env, identityActions).identityActions);
      var r := CreateActionsModel(env, PlainObj(actionMap), identityActions);
      r.Ok? &&
      exists u :: u in types && env.camelCase(u) == env.camelCase(t)
        && r.value.Get(env.camelCase(t)) == Fn(ActionCreator(u, Fn(Identity), Undefined))
  {
    var types := Strings(FullOptions(env, identityActions).identityActions);
    IdentityActionOutput(env.camelCase, types);
    MergeOrder(env, actionMap, identityActions);
  }

  /**
   * When `camelCase` sends no two identity actions to the same key, each action type `t`
   * gets its own creator under `camelCase(t)`.
   */
  lemma IdentityActionsDistinctKeys(camelCase: string -> string, identityActions: seq<string>, t: string)
    requires t in identityActions
    requires forall u :: u in identityActions && camelCase(u) == camelCase(t) ==> u == t
    ensures var r := ActionCreatorsFromIdentityActions(camelCase, identityActions);
      camelCase(t) in r.keys && r.Get(camelCase(t)) == Fn(ActionCreator(t, Fn(Identity), Undefined))
  {
    IdentityActionOutput(camelCase, identityActions);
  }
}
