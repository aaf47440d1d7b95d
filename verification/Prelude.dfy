/** Small generic definitions shared by the models. */
module Prelude {
  datatype Option<+T> = None | Some(value: T) {
    function GetOr(default: T): T {
      if Some? then value else default
    }
  }

  /** How a method that can raise ends; `:-` hands an exception on to the caller. */
  datatype Completion = Done | Raised {
    predicate IsFailure() {
      Raised?
    }

    function PropagateFailure(): Completion {
      this
    }
  }

  /** Python's `a or b` on optional strings: an absent or empty string is falsy. */
  function OrElse(a: Option<string>, b: Option<string>): Option<string> {
    if a.Some? && a.value != "" then a else b
  }

  /** `dict.get(key)`. */
  function Get<K, V>(m: map<K, V>, k: K): Option<V> {
    if k in m then Some(m[k]) else None
  }

  /** Two maps differ at most at `k`. */
  ghost predicate SameElsewhere<K(!new), V>(m: map<K, V>, n: map<K, V>, k: K) {
    forall j | j != k :: Get(n, j) == Get(m, j)
  }

  lemma SliceOfDrop<T>(s: seq<T>, h: nat, a: nat, b: nat)
    requires a <= b && h + b <= |s|
    ensures s[h..][a..b] == s[h + a..h + b]
  {
  }

  lemma DropOfDrop<T>(s: seq<T>, h: nat, a: nat)
    requires h + a <= |s|
    ensures s[h..][a..] == s[h + a..]
  {
  }

  lemma CutConcat<T>(a: seq<T>, b: seq<T>, n: nat)
    requires n <= |a|
    ensures (a + b)[..n] == a[..n] && (a + b)[n..] == a[n..] + b
  {
  }
}
