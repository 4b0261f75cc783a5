/**
 The part of the action catalog the policy engine depends on. The catalog itself
 (the table from an HTTP method and URI shape to an action) is not part of this
 model: it is a `Resolver` the caller supplies.
 */
module ActionMapper {

  /** A request's action: its own name (say `containers_create`) and the name of
      the namespace it belongs to (say `containers`). */
  datatype Action = Action(name: string, namespaceName: string)

  /** `Action(method=..., query=...)`: the HTTP method and the request URI to an action. */
  type Resolver = (string, string) -> Action
}
