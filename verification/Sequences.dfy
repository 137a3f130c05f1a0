/** The last element of a sequence and everything before it, for proofs that build sequences up from the front. */
module Sequences {
  function Last<X>(s: seq<X>): X
    requires s != []
  {
    s[|s| - 1]
  }

  function Init<X>(s: seq<X>): seq<X>
    requires s != []
  {
    s[..|s| - 1]
  }
}
