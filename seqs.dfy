/** Sequence vocabulary shared by the container models: the abstract contents
    of every container is a sequence of distinct nodes, and the mutators
    change it by splicing one node in or cutting one node out. */
module Seqs {

  /** No node occurs twice: a node is linked at most once. */
  ghost predicate Distinct<T>(s: seq<T>)
  {
    DistinctFrom(s, 0)
  }

  /** From position `k` on, no element occurs again further on. */
  ghost predicate DistinctFrom<T>(s: seq<T>, k: nat)
    decreases |s| - k
  {
    k >= |s| || ((forall j :: k < j < |s| ==> s[j] != s[k]) && DistinctFrom(s, k + 1))
  }

  /** DistinctFrom says exactly that no two positions from `k` on hold the
      same element. */
  lemma {:induction false} DistinctFromPairs<T>(s: seq<T>, k: nat)
    ensures DistinctFrom(s, k) <==> forall a, b :: k <= a < b < |s| ==> s[a] != s[b]
    decreases |s| - k
  {
    if k < |s| {
      DistinctFromPairs(s, k + 1);
    }
  }

  /** Distinct says exactly that no two positions hold the same element. */
  lemma DistinctPairs<T>(s: seq<T>)
    ensures Distinct(s) <==> forall a, b :: 0 <= a < b < |s| ==> s[a] != s[b]
  {
    DistinctFromPairs(s, 0);
  }

  /** In a sequence of distinct elements, no other position holds the
      element at position `i`. */
  lemma DistinctAt<T>(s: seq<T>, i: nat)
    requires Distinct(s) && i < |s|
    ensures forall j :: 0 <= j < |s| && j != i ==> s[j] != s[i]
  {
    DistinctPairs(s);
  }

  /** A position of `x` in `s`; the only one when `s` is distinct. */
  ghost function IndexOf<T>(s: seq<T>, x: T): (i: nat)
    requires x in s
    ensures i < |s| && s[i] == x
  {
    var i :| 0 <= i < |s| && s[i] == x; i
  }

  /** `s` with `x` spliced in so that it lands at position `i`. */
  function InsertAt<T>(s: seq<T>, i: nat, x: T): (r: seq<T>)
    requires i <= |s|
    ensures |r| == |s| + 1 && r[i] == x
    ensures forall j :: 0 <= j < i ==> r[j] == s[j]
    ensures forall j :: i < j < |r| ==> r[j] == s[j - 1]
  {
    s[..i] + [x] + s[i..]
  }

  /** `s` with the element at position `i` cut out. */
  function RemoveAt<T>(s: seq<T>, i: nat): (r: seq<T>)
    requires i < |s|
    ensures |r| == |s| - 1
    ensures forall j :: 0 <= j < i ==> r[j] == s[j]
    ensures forall j :: i <= j < |r| ==> r[j] == s[j + 1]
  {
    s[..i] + s[i + 1..]
  }

  /** In a sequence of distinct elements, an element's position is the only one holding it. */
  lemma IndexOfDistinct<T>(s: seq<T>, k: nat)
    requires Distinct(s) && k < |s|
    ensures IndexOf(s, s[k]) == k
  {
    DistinctAt(s, k);
  }

  /** Splicing in a fresh element keeps the elements distinct. */
  lemma DistinctInsert<T>(s: seq<T>, i: nat, x: T)
    requires Distinct(s) && x !in s && i <= |s|
    ensures Distinct(InsertAt(s, i, x))
  {
    var r := InsertAt(s, i, x);
    DistinctPairs(s);
    DistinctPairs(r);
    forall a, b | 0 <= a < b < |r| ensures r[a] != r[b] {
      if a == i {
        assert r[b] == s[b - 1];
      } else if b == i {
        assert r[a] == s[a];
      }
    }
  }

  /** Cutting an element out keeps the rest distinct, and removes that element. */
  lemma DistinctRemove<T>(s: seq<T>, i: nat)
    requires Distinct(s) && i < |s|
    ensures Distinct(RemoveAt(s, i)) && s[i] !in RemoveAt(s, i)
  {
    var r := RemoveAt(s, i);
    DistinctPairs(s);
    DistinctPairs(r);
  }

  /** Cutting out the element just spliced in gives back the original sequence. */
  lemma RemoveInsert<T>(s: seq<T>, i: nat, x: T)
    requires i <= |s|
    ensures RemoveAt(InsertAt(s, i, x), i) == s
  {
  }
}
