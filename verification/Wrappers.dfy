/** What a C function returns when it answers with an index or with -1. */
module Wrappers {
  datatype Option<+T> = None | Some(value: T)

  /** The least index at which `b` holds. */
  function FirstTrue(b: seq<bool>): (r: Option<nat>)
    ensures r.Some? ==> r.value < |b| && b[r.value] && forall j | 0 <= j < r.value :: !b[j]
    ensures r.None? ==> forall j | 0 <= j < |b| :: !b[j]
  {
    if b == [] then None
    else if b[0] then Some(0)
    else match FirstTrue(b[1..])
      case None => None
      case Some(i) => Some(i + 1)
  }

  lemma FirstTrueIs(b: seq<bool>, i: nat)
    requires i < |b| && b[i] && forall j | 0 <= j < i :: !b[j]
    ensures FirstTrue(b) == Some(i)
  {
    match FirstTrue(b)
    case Some(r) =>
      assert r <= i;
    case None =>
      assert false;
  }
}
