/** Options and sequences: what several of the models need. */
module Collections {

  datatype Option<+T> = None | Some(value: T)

  ghost predicate NoDup<T>(s: seq<T>) {
    forall i, j | 0 <= i < j < |s| :: s[i] != s[j]
  }

  /** s without its kth element. */
  function Without<T>(s: seq<T>, k: nat): seq<T>
    requires k < |s|
  {
    s[..k] + s[k + 1..]
  }

  /** The kth of a list of addresses, or the null pointer. */
  function At(s: seq<nat>, k: int): nat {
    if 0 <= k < |s| then s[k] else 0
  }
}
