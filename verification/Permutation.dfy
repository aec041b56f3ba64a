/** Permutations of the 256 byte values. */
module Permutation {
  import opened Bits

  function Identity(): (s: seq<byte>)
    ensures |s| == 256 && forall i :: 0 <= i < 256 ==> s[i] == i
  {
    seq(256, i requires 0 <= i < 256 => i)
  }

  ghost predicate IsPermutation(s: seq<byte>) {
    multiset(s) == multiset(Identity())
  }

  lemma IdentityIsPermutation()
    ensures IsPermutation(Identity())
  {
  }

  function Swap<T>(s: seq<T>, i: nat, j: nat): (r: seq<T>)
    requires i < |s| && j < |s|
    ensures |r| == |s|
  {
    s[i := s[j]][j := s[i]]
  }

  lemma SwapIsPermutation(s: seq<byte>, i: nat, j: nat)
    requires i < |s| && j < |s| && IsPermutation(s)
    ensures IsPermutation(Swap(s, i, j))
  {
    assert multiset(Swap(s, i, j)) == multiset(s);
  }

  /** A permutation holds every byte value, and none of them twice. */
  lemma PermutationIsOnto(s: seq<byte>, v: byte)
    requires IsPermutation(s)
    ensures |s| == 256 && v in s && multiset(s)[v] == 1
  {
    assert |multiset(s)| == 256;
    var id := Identity();
    assert id[v] == v;
    CountOnce(id, v, v);
  }

  lemma {:induction false} CountOnce(s: seq<byte>, v: byte, i: nat)
    requires i < |s| && s[i] == v && forall j :: 0 <= j < |s| && j != i ==> s[j] != v
    ensures multiset(s)[v] == 1
  {
    assert s == s[..i] + [v] + s[i + 1..];
    assert v !in s[..i] && v !in s[i + 1..];
  }

  lemma PermutationIsInjective(s: seq<byte>, i: nat, j: nat)
    requires IsPermutation(s) && i < j < |s|
    ensures s[i] != s[j]
  {
    PermutationIsOnto(s, s[i]);
    assert s == s[..j] + [s[j]] + s[j + 1..];
    assert s[i] == s[..j][i];
  }
}
