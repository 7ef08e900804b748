// Rearranging a sequence by a permutation of its positions keeps its multiset
// of elements.  Used to show that a turn conserves the cube's colours.
module SeqPerm {

  /** `perm` is a permutation of 0 .. |perm|-1 and `inv` is its inverse. */
  ghost predicate IsPermutation(perm: seq<nat>, inv: seq<nat>)
  {
    |perm| == |inv| &&
    (forall k :: 0 <= k < |perm| ==> perm[k] < |perm| && inv[perm[k]] == k) &&
    (forall v :: 0 <= v < |inv| ==> inv[v] < |inv| && perm[inv[v]] == v)
  }

  /** The sequence whose k-th element is `s[perm[k]]`. */
  function Permute<T>(s: seq<T>, perm: seq<nat>): (r: seq<T>)
    requires forall k :: 0 <= k < |perm| ==> perm[k] < |s|
    ensures |r| == |perm| && forall k :: 0 <= k < |perm| ==> r[k] == s[perm[k]]
  {
    seq(|perm|, k requires 0 <= k < |perm| => s[perm[k]])
  }

  lemma {:induction false} PermutePreservesMultiset<T>(s: seq<T>, perm: seq<nat>, inv: seq<nat>)
    requires |s| == |perm| && IsPermutation(perm, inv)
    ensures multiset(Permute(s, perm)) == multiset(s)
    decreases |s|
  {
    if |s| > 0 {
      var n := |s| - 1;
      var j := inv[n];
      // Drop position j, the one that takes the last element of s.
      var perm' := perm[..j] + perm[j + 1..];
      var inv' := DropLast(perm, inv);
      var s' := s[..n];
      PermutePreservesMultiset(s', perm', inv');
      PermuteDropLast(s, perm, inv);
      assert s == s' + [s[n]];
    }
  }

  /** Permuting `s` puts its last element at position j = inv[|s|-1]; the
      rest is the shorter permutation applied to the rest of `s`. */
  lemma PermuteDropLast<T>(s: seq<T>, perm: seq<nat>, inv: seq<nat>)
    requires |s| == |perm| > 0 && IsPermutation(perm, inv)
    ensures var n, j := |s| - 1, inv[|s| - 1];
      var perm' := perm[..j] + perm[j + 1..];
      j < |s| && (forall k :: 0 <= k < |perm'| ==> perm'[k] < n) &&
      multiset(Permute(s, perm)) == multiset(Permute(s[..n], perm')) + multiset{s[n]}
  {
    var n, j := |s| - 1, inv[|s| - 1];
    var t := Permute(s, perm);
    var perm' := perm[..j] + perm[j + 1..];
    forall k | 0 <= k < n
      ensures perm'[k] < n && perm'[k] == perm[if k < j then k else k + 1]
    {
      var k0 := if k < j then k else k + 1;
      assert perm'[k] == perm[k0];
      assert perm[k0] != n;
    }
    var front, back := t[..j], t[j + 1..];
    assert t == front + [s[n]] + back by {
      assert t[j] == s[n];
    }
    var t' := Permute(s[..n], perm');
    assert t' == front + back by {
      forall k | 0 <= k < n
        ensures t'[k] == (front + back)[k]
      {
      }
    }
  }

  /** Removing the position that takes the last element leaves a
      permutation of the shorter range. */
  lemma DropLast(perm: seq<nat>, inv: seq<nat>) returns (inv': seq<nat>)
    requires IsPermutation(perm, inv) && |perm| > 0
    ensures inv[|perm| - 1] < |perm|
    ensures var j := inv[|perm| - 1]; IsPermutation(perm[..j] + perm[j + 1..], inv')
  {
    var n := |perm| - 1;
    var j := inv[n];
    var perm' := perm[..j] + perm[j + 1..];
    inv' := seq(n, v requires 0 <= v < n => if inv[v] < j then inv[v] else inv[v] - 1);
    forall k | 0 <= k < n
      ensures perm'[k] < n && inv'[perm'[k]] == k
    {
      var k0 := if k < j then k else k + 1;
      assert perm'[k] == perm[k0];
      assert perm[k0] != n;
    }
    forall v | 0 <= v < n
      ensures inv'[v] < n && perm'[inv'[v]] == v
    {
      assert inv[v] != j;
    }
  }
}
