/** The optional-value type used where the source returns `null` or swallows an exception. */
module Wrappers {

  datatype Option<+T> = None | Some(value: T)

  /** The zero- or one-element sequence holding the value of `o`. */
  function ToSeq<T>(o: Option<T>): (s: seq<T>)
    ensures |s| <= 1
    ensures o.Some? <==> |s| == 1
    ensures o.Some? ==> s[0] == o.value
  {
    match o
    case None => []
    case Some(v) => [v]
  }

  /**
   * Tries `f` at `i`, `i + 1`, ..., `n` in turn and stops at the first index where it
   * gives a value: that index and the value, or `None` when it gives none.
   */
  function FirstSome<T>(f: nat -> Option<T>, i: nat, n: nat): (r: Option<(nat, T)>)
    requires i <= n
    ensures r.Some? ==> i <= r.value.0 <= n && f(r.value.0) == Some(r.value.1)
    decreases n - i
  {
    if f(i).Some? then Some((i, f(i).value))
    else if i == n then None
    else FirstSome(f, i + 1, n)
  }

  /**
   * `FirstSome` skips nothing: `f` gives no value at any index before the one reported,
   * and none at all in the range when nothing is reported.
   */
  lemma {:induction false} FirstSomeIsFirst<T>(f: nat -> Option<T>, i: nat, n: nat)
    requires i <= n
    ensures FirstSome(f, i, n).Some? ==> forall k :: i <= k < FirstSome(f, i, n).value.0 ==> f(k).None?
    ensures FirstSome(f, i, n).None? ==> forall k :: i <= k <= n ==> f(k).None?
    decreases n - i
  {
    if f(i).None? && i < n {
      FirstSomeIsFirst(f, i + 1, n);
    }
  }
}
