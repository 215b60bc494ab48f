/** Texts that end with a terminating zero. */
module CStrings {

  /** Whether the text at `start` ends inside the array. */
  predicate Terminated<T(==)>(a: array<T>, start: nat, zero: T)
    reads a
  {
    exists k :: start <= k < a.Length && a[k] == zero
  }

  function UpTo<T(==)>(s: seq<T>, zero: T): (t: seq<T>)
    ensures t <= s && zero !in t
    ensures |t| < |s| ==> s[|t|] == zero
  {
    if s == [] || s[0] == zero then [] else [s[0]] + UpTo(s[1..], zero)
  }

  lemma {:induction false} ZeroEndsText<T>(s: seq<T>, n: nat, zero: T)
    requires n < |s| && s[n] == zero && forall k :: 0 <= k < n ==> s[k] != zero
    ensures UpTo(s, zero) == s[..n]
  {
    if n > 0 {
      ZeroEndsText(s[1..], n - 1, zero);
      assert s[..n] == [s[0]] + s[1..][..n - 1];
    }
  }

  method StrLen<T(==)>(a: array<T>, start: nat, zero: T) returns (n: nat)
    requires Terminated(a, start, zero)
    ensures start + n < a.Length && a[start..start + n] == UpTo(a[start..], zero)
  {
    n := 0;
    while a[start + n] != zero
      invariant start + n < a.Length
      invariant forall k :: start <= k < start + n ==> a[k] != zero
      invariant exists k :: start + n <= k < a.Length && a[k] == zero
      decreases a.Length - n
    {
      n := n + 1;
    }
    ZeroEndsText(a[start..], n, zero);
    assert a[start..][..n] == a[start..start + n];
  }
}
