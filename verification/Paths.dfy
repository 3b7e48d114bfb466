/** Slash-separated paths. */
module Paths {
  import opened Ordering

  const SLASH := 47

  /** The end of the first component. */
  function FirstSlash(q: Text): (k: nat)
    ensures k <= |q| && (forall i | 0 <= i < k :: q[i] != SLASH) && (k < |q| ==> q[k] == SLASH)
  {
    FirstSlashFrom(q, 0)
  }

  function FirstSlashFrom(q: Text, i: nat): (k: nat)
    requires i <= |q|
    ensures i <= k <= |q| && (forall j | i <= j < k :: q[j] != SLASH) && (k < |q| ==> q[k] == SLASH)
    decreases |q| - i
  {
    if i == |q| || q[i] == SLASH then i else FirstSlashFrom(q, i + 1)
  }
}
