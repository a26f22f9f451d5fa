/** Small shared definitions: an optional value, the JSON reply every route sends, and
    key uniqueness over a stored collection. */
module Wrappers {

  /** A value that may be missing. In a request body, None stands for a field that is
      absent or JSON `null`. */
  datatype Option<+T> = None | Some(value: T) {

    /** The value, or `default` when there is none. */
    function GetOr(default: T): T {
      match this
      case Some(v) => v
      case None => default
    }
  }

  /** JavaScript truthiness of an optional string field: present and not "". */
  predicate Truthy(f: Option<string>) {
    f.Some? && f.value != ""
  }

  /** A JSON reply: `{ ok: true, ... }` with its payload, or `{ ok: false, message }`. */
  datatype Reply<+T> = Ok(status: nat, body: T) | Fail(status: nat, message: string)

  /** No two records of a collection share a key: a unique index such as `_id` or `email`. */
  ghost predicate UniqueBy<T, K>(s: seq<T>, key: T -> K) {
    forall i, j :: 0 <= i < j < |s| ==> key(s[i]) != key(s[j])
  }
}
