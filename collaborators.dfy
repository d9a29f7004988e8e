/**
 * The helpers `createActions` imports from files this model does not include.
 * Those whose bodies are not part of the model are fields of `Env`, so every
 * result below holds whatever they compute. `arrayToObject` and `createAction`
 * are given only the behaviour `createActions` relies on.
 */
module Collaborators {
  import opened Js

  /**
   * The unseen helpers: `camelCase`, `flattenActionMap(actionMap, namespace)`,
   * `unflattenActionCreators(flatActionCreators, namespace)` and the constant
   * `defaultNamespace`.
   */
  datatype Env = Env(
    camelCase: string -> string,
    flattenActionMap: (Obj, JsValue) -> Obj,
    unflattenActionCreators: (Obj, JsValue) -> Obj,
    defaultNamespace: JsValue)

  /**
   * `arrayToObject(xs, step)`: a left fold of `step` over `xs` starting from `{}`.
   * A step that throws ends the fold with its exception. `ArrayToObjectTotal` and
   * `ArrayToObjectFailure` state when it fails and with what.
   */
  function ArrayToObject(xs: seq<string>, step: (Obj, string) -> Result<Obj>): (r: Result<Obj>)
    decreases |xs|
  {
    if xs == [] then Ok(Empty)
    else
      match ArrayToObject(xs[..|xs| - 1], step)
      case Failure(e) => Failure(e)
      case Ok(acc) => step(acc, xs[|xs| - 1])
  }

  /** A fold whose reducer never throws on the elements of `xs` does not throw. */
  lemma {:induction false} ArrayToObjectTotal(xs: seq<string>, step: (Obj, string) -> Result<Obj>)
    requires forall acc, x :: x in xs ==> step(acc, x).Ok?
    ensures ArrayToObject(xs, step).Ok?
  {
    if xs != [] {
      assert forall y :: y in xs[..|xs| - 1] ==> y in xs;
      ArrayToObjectTotal(xs[..|xs| - 1], step);
      assert xs[|xs| - 1] in xs;
    }
  }

  /** A fold that throws does so with the exception of a step on one of the elements. */
  lemma {:induction false} ArrayToObjectFailure(xs: seq<string>, step: (Obj, string) -> Result<Obj>)
    ensures ArrayToObject(xs, step).Failure? ==>
      exists acc, x :: x in xs && step(acc, x) == Failure(ArrayToObject(xs, step).message)
  {
    if xs != [] {
      var front := xs[..|xs| - 1];
      assert forall y :: y in front ==> y in xs;
      ArrayToObjectFailure(front, step);
      if ArrayToObject(front, step).Ok? {
        assert xs[|xs| - 1] in xs;
      }
    }
  }

  /**
   * JavaScript binding of `args[i]` to a parameter or destructuring target with a
   * default: the default applies when the element is missing or `undefined`.
   */
  function ElementOr(args: seq<JsValue>, i: nat, default: JsValue): (r: JsValue)
    ensures i < |args| && args[i] != Undefined ==> r == args[i]
    ensures !(i < |args| && args[i] != Undefined) ==> r == default
  {
    if i < |args| && args[i] != Undefined then args[i] else default
  }

  /**
   * `createAction(type, ...args)` against its signature
   * `createAction(type, payloadCreator = identity, metaCreator)`: the creator records its
   * type and the two transforms bound from `args`; further arguments are ignored.
   */
  function CreateAction(actionType: string, args: seq<JsValue>): (r: Function)
    ensures r.ActionCreator? && r.actionType == actionType
    ensures r.payloadCreator == (if args != [] && args[0] != Undefined then args[0] else Fn(Identity))
    ensures r.metaCreator == (if |args| > 1 then args[1] else Undefined)
  {
    ActionCreator(actionType, ElementOr(args, 0, Fn(Identity)), ElementOr(args, 1, Undefined))
  }
}
