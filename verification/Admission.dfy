/** Admission requests and responses, reduced to what the decisions read. */
module Admission {
  /** A raw object of a request and what the decoder makes of it; an absent object has no bytes, and
      the decoder reports an error for it as well. */
  datatype Raw<+T> = Absent | Malformed | Decoded(value: T)

  datatype Operation = Create | Update | Delete | Connect

  /** `kind` and `kindGroup` are the request's GroupVersionKind; `username` and `groups` its UserInfo. */
  datatype Request<+T> = Request(
    operation: Operation,
    kind: string,
    kindGroup: string,
    username: string,
    groups: seq<string>,
    newObject: Raw<T>,
    oldObject: Raw<T>)

  /** `Panicked` stands for a nil dereference in the handler; it is not an admission. */
  datatype Response = Allowed | Denied | Errored(code: nat) | Panicked

  predicate RequestMatchesGroupKind<T>(req: Request<T>, kind: string, group: string) {
    req.kind == kind && req.kindGroup == group
  }

  /** Same request, other group memberships. */
  function WithGroups<T>(req: Request<T>, groups: seq<string>): Request<T> {
    req.(groups := groups)
  }

  predicate MoreGroups(few: seq<string>, many: seq<string>) {
    forall g :: g in few ==> g in many
  }
}
