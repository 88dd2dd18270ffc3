/** The result of a JavaScript operation that may produce no value: `None` stands for
    `undefined`, or for an exception, as each member's documentation says. */
module Wrappers {

  datatype Option<+T> = None | Some(value: T)

  /** Prepends `prefix` to the sequence inside `r`, propagating `None`. */
  function Prefix<T>(prefix: seq<T>, r: Option<seq<T>>): Option<seq<T>>
  {
    match r
    case None => None
    case Some(s) => Some(prefix + s)
  }

  lemma PrefixAssoc<T>(a: seq<T>, b: seq<T>, r: Option<seq<T>>)
    ensures Prefix(a, Prefix(b, r)) == Prefix(a + b, r)
  {
    if r.Some? {
      assert a + (b + r.value) == (a + b) + r.value;
    }
  }
}
