/** The four fields of an authorization request that the policy engine reads. */
module Payloads {
  import opened Wrappers

  /** `user` is `None` for an unauthenticated caller; `host` is what `get_host()` yields. */
  datatype Payload = Payload(user: Option<string>, requestMethod: string, uri: string, host: string)
}
