/** The user API's paths, from infrastructures/api/endpoints.ts. */
module Endpoints {
  import opened Wrappers

  const Base: string := "/users"
  const Register: string := "/users/register"
  const Login: string := "/users/login"

  /** `byId(id)`: the id is interpolated as is, with no escaping. */
  function ById(id: string): (path: string)
    ensures |path| == |Base| + 1 + |id|
    ensures path[..|Base| + 1] == Base + "/"
    ensures path[|Base| + 1..] == id
  {
    Base + "/" + id
  }

  /** Reads the id back out of a `byId` path. */
  function IdOf(path: string): (id: Option<string>)
    ensures id.Some? <==> |path| >= |Base| + 1 && path[..|Base| + 1] == Base + "/"
  {
    if |path| >= |Base| + 1 && path[..|Base| + 1] == Base + "/" then Some(path[|Base| + 1..]) else None
  }

  lemma {:induction false} IdOfById(id: string)
    ensures IdOf(ById(id)) == Some(id)
  {
  }

  /** Distinct ids give distinct paths. */
  lemma {:induction false} ByIdInjective(a: string, b: string)
    requires ById(a) == ById(b)
    ensures a == b
  {
    IdOfById(a);
    IdOfById(b);
  }

  /** Every path of the module starts with the base path. */
  lemma {:induction false} UnderBase(id: string)
    ensures Register[..|Base|] == Base && Login[..|Base|] == Base && ById(id)[..|Base|] == Base
  {
  }

  /**
   * The fixed routes are themselves `byId` paths: an id of "register" or
   * "login" produces the same path as those routes.
   */
  lemma {:induction false} FixedRoutesCollide()
    ensures ById("register") == Register && ById("login") == Login
  {
  }
}
