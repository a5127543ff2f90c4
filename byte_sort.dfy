/** The byte-level part of comparing two serialized index descriptions: sorting the
    bytes of a serialized string in place (`std::sort` over a `std::string`) and the
    fact that two sorted byte strings are equal exactly when they hold the same bytes
    with the same multiplicities. */
module ByteSort {

  /** One byte of a serialized protocol-buffer message. */
  newtype Byte = x: int | 0 <= x < 256

  /** Ascending order, the order `std::sort` leaves a string in. */
  ghost predicate Sorted(s: seq<Byte>) {
    forall i, j :: 0 <= i < j < |s| ==> s[i] <= s[j]
  }

  /** The first position of a smallest byte in `a[lo..]`. */
  method IndexOfMin(a: array<Byte>, lo: nat) returns (m: nat)
    requires lo < a.Length
    ensures lo <= m < a.Length
    ensures forall k :: lo <= k < a.Length ==> a[m] <= a[k]
    ensures forall k :: lo <= k < m ==> a[k] > a[m]
  {
    m := lo;
    var i := lo + 1;
    while i < a.Length
      invariant lo <= m < i <= a.Length
      invariant forall k :: lo <= k < i ==> a[m] <= a[k]
      invariant forall k :: lo <= k < m ==> a[k] > a[m]
    {
      if a[i] < a[m] {
        m := i;
      }
      i := i + 1;
    }
  }

  /** Exchanges `a[i]` and `a[j]`, leaving every other byte where it was. */
  method Swap(a: array<Byte>, i: nat, j: nat)
    requires i < a.Length && j < a.Length
    modifies a
    ensures a[..] == old(a[..])[i := old(a[j])][j := old(a[i])]
    ensures multiset(a[..]) == old(multiset(a[..]))
  {
    a[i], a[j] := a[j], a[i];
  }

  /** Sorts `a` in place: the result is ascending and a permutation of the input. */
  method SortInPlace(a: array<Byte>)
    modifies a
    ensures Sorted(a[..])
    ensures multiset(a[..]) == old(multiset(a[..]))
  {
    var i := 0;
    while i < a.Length
      invariant 0 <= i <= a.Length
      invariant forall p, q :: 0 <= p < q < i ==> a[p] <= a[q]
      invariant forall p, q :: 0 <= p < i <= q < a.Length ==> a[p] <= a[q]
      invariant multiset(a[..]) == old(multiset(a[..]))
    {
      var m := IndexOfMin(a, i);
      Swap(a, i, m);
      i := i + 1;
    }
  }

  /** The first byte of a sorted string is no larger than any byte it holds. */
  lemma SortedHeadIsLeast(s: seq<Byte>, x: Byte)
    requires Sorted(s) && x in multiset(s)
    ensures |s| > 0 && s[0] <= x
  {
  }

  /** Dropping the first byte removes one occurrence of it from the multiset. */
  lemma MultisetOfTail(s: seq<Byte>)
    requires s != []
    ensures multiset(s[1..]) == multiset(s) - multiset{s[0]}
  {
    assert s == [s[0]] + s[1..];
  }

  /** Two sorted strings with the same bytes start with the same byte. */
  lemma SameHead(s: seq<Byte>, t: seq<Byte>)
    requires Sorted(s) && Sorted(t) && s != [] && multiset(s) == multiset(t)
    ensures t != [] && s[0] == t[0]
  {
    assert s[0] in multiset(t);
    SortedHeadIsLeast(t, s[0]);
    assert t[0] in multiset(s);
    SortedHeadIsLeast(s, t[0]);
  }

  /** Comparing two byte strings after sorting both is comparing their byte multisets. */
  lemma {:induction false} SortedEqualIffSameMultiset(s: seq<Byte>, t: seq<Byte>)
    requires Sorted(s) && Sorted(t)
    ensures s == t <==> multiset(s) == multiset(t)
  {
    if multiset(s) == multiset(t) {
      if s == [] {
        assert |multiset(t)| == 0;
      } else {
        SameHead(s, t);
        MultisetOfTail(s);
        MultisetOfTail(t);
        SortedEqualIffSameMultiset(s[1..], t[1..]);
        assert s == [s[0]] + s[1..];
        assert t == [t[0]] + t[1..];
      }
    }
  }
}
