/** Shared by all components. */
module Common {
  datatype Option<+T> = None | Some(value: T)

  function Min(a: nat, b: nat): nat { if a <= b then a else b }

  lemma SubsetSize<T>(a: set<T>, b: set<T>)
    requires a <= b
    ensures |a| <= |b|
  {
    assert b == a + (b - a);
  }

  lemma SliceOfSlice<T>(s: seq<T>, i: nat, j: nat, from: nat, to: nat)
    requires i <= j <= |s| && from <= to <= j - i
    ensures s[i..j][from..to] == s[i + from..i + to]
  {
    var a, b := s[i..j][from..to], s[i + from..i + to];
    assert |a| == |b| && forall k | 0 <= k < |a| :: a[k] == b[k];
  }

  lemma ConcatAssociative<T>(a: seq<T>, b: seq<T>, c: seq<T>)
    ensures (a + b) + c == a + (b + c)
  {
  }
}
