/** Singly-linked list (the zf_slist_* part of zf_queue/zf_queue.h).

    The head holds one pointer, `first`; every node holds `next`. The list
    never allocates or frees a node: the mutators only rewrite link fields. */
module SList {
  import opened Seqs

  /** zf_slist_node: the link field an element embeds. */
  class Node {
    var next: Node?

    /** An unlinked node: its links mean nothing until an insert writes them. */
    constructor ()
    {
    }
  }

  /** Each node of `s` links to the one after it. */
  ghost predicate Chained(s: seq<Node>)
    reads s
  {
    forall i {:trigger s[i].next} :: 0 <= i < |s| - 1 ==> s[i].next == s[i + 1]
  }

  /** Splicing `n` in after position `i`: once `s[i]` links to `n` and `n`
      to the old successor, the longer sequence is chained again. */
  lemma ChainedInsert(s: seq<Node>, i: nat, n: Node)
    requires i < |s|
    requires forall j {:trigger s[j].next} :: 0 <= j < |s| - 1 && j != i ==> s[j].next == s[j + 1]
    requires s[i].next == n && (i + 1 < |s| ==> n.next == s[i + 1])
    ensures Chained(InsertAt(s, i + 1, n))
  {
    var r := InsertAt(s, i + 1, n);
    forall j | 0 <= j < |r| - 1 ensures r[j].next == r[j + 1] {
      if j < i {
        assert r[j] == s[j] && r[j + 1] == s[j + 1];
      } else if j > i + 1 {
        assert r[j] == s[j - 1] && r[j + 1] == s[j];
      }
    }
  }

  /** Cutting out the node after position `i`: once `s[i]` links past it,
      the shorter sequence is chained again. */
  lemma ChainedRemove(s: seq<Node>, i: nat)
    requires i + 1 < |s|
    requires forall j {:trigger s[j].next} :: 0 <= j < |s| - 1 && j != i && j != i + 1 ==> s[j].next == s[j + 1]
    requires i + 2 < |s| ==> s[i].next == s[i + 2]
    ensures Chained(RemoveAt(s, i + 1))
  {
    var r := RemoveAt(s, i + 1);
    forall j | 0 <= j < |r| - 1 ensures r[j].next == r[j + 1] {
      if j < i {
        assert r[j] == s[j] && r[j + 1] == s[j + 1];
      } else if j > i {
        assert r[j] == s[j + 1] && r[j + 1] == s[j + 2];
      }
    }
  }

  /** zf_slist_head. `nodes` is the abstract contents, first to last. */
  class Head {
    var first: Node?
    ghost var nodes: seq<Node>

    /** The `next` chain from `first` lists `nodes`, each node once, and
        ends in null. */
    ghost predicate Valid()
      reads this, nodes
    {
      && Distinct(nodes)
      && first == (if nodes == [] then null else nodes[0])
      && (nodes != [] ==> nodes[|nodes| - 1].next == null)
      && Chained(nodes)
    }

    /** ZF_SLIST_INITIALIZER: the head value {0}. */
    constructor Initializer()
      ensures Valid() && nodes == [] && first == null
    {
      first := null;
      nodes := [];
    }

    /** zf_slist_init */
    method Init()
      modifies this
      ensures Valid() && nodes == [] && first == null
    {
      first := null;
      nodes := [];
    }

    /** zf_slist_empty */
    function Empty(): (r: bool)
      reads this, nodes
      requires Valid()
      ensures r <==> nodes == []
    {
      first == null
    }

    /** zf_slist_first */
    function First(): (r: Node?)
      reads this, nodes
      requires Valid()
      ensures r == null <==> nodes == []
      ensures r != null ==> r == nodes[0]
    {
      first
    }

    /** zf_slist_next: the successor of `n`, null for the last node. The
        source takes no head; the head only supplies the contents `n` is
        judged against. */
    function Next(n: Node): (r: Node?)
      reads this, nodes
      requires Valid() && n in nodes
      ensures r == null <==> IndexOf(nodes, n) == |nodes| - 1
      ensures r != null ==> r == nodes[IndexOf(nodes, n) + 1]
    {
      NodeLinks(n);
      n.next
    }

    /** zf_slist_insert_head: `n` becomes the first node. */
    method InsertHead(n: Node)
      requires Valid() && n !in nodes
      modifies this, n
      ensures Valid() && nodes == [n] + old(nodes)
      ensures First() == n
    {
      ghost var s := nodes;
      n.next := first;
      first := n;
      DistinctInsert(s, 0, n);
      nodes := InsertAt(s, 0, n);
      assert nodes == [n] + s;
      forall i | 1 <= i < |nodes| - 1 ensures nodes[i].next == nodes[i + 1] {
        assert nodes[i] == s[i - 1] && nodes[i + 1] == s[i];
      }
    }

    /** zf_slist_insert_after(b, a): splice `a` in right after `b`. Only the
        `next` fields of `b` and `a` are written; the head is not touched. */
    method InsertAfter(b: Node, a: Node)
      requires Valid() && b in nodes && a !in nodes
      modifies this`nodes, b, a
      ensures Valid() && nodes == InsertAt(old(nodes), IndexOf(old(nodes), b) + 1, a)
      ensures Next(b) == a
    {
      ghost var s := nodes;
      ghost var i := IndexOf(s, b);
      NodeLinks(b);
      DistinctAt(s, i);
      a.next := b.next;
      b.next := a;
      ChainedInsert(s, i, a);
      DistinctInsert(s, i + 1, a);
      nodes := InsertAt(s, i + 1, a);
      IndexOfDistinct(nodes, i);
    }

    /** zf_slist_remove_head: drop the first node; undefined on an empty list,
        so non-emptiness is required. The removed node is not touched. */
    method RemoveHead()
      requires Valid() && nodes != []
      modifies this
      ensures Valid() && nodes == old(nodes)[1..]
      ensures Empty() <==> |old(nodes)| == 1
    {
      ghost var s := nodes;
      if |s| > 1 {
        assert s[0].next == s[1];
      }
      first := first.next;
      DistinctRemove(s, 0);
      nodes := RemoveAt(s, 0);
    }

    /** zf_slist_remove_after(n): drop the node after `n`, which must exist.
        Only `n.next` is written. */
    method RemoveAfter(n: Node)
      requires Valid() && n in nodes && n.next != null
      modifies this`nodes, n
      ensures Valid() && nodes == RemoveAt(old(nodes), IndexOf(old(nodes), n) + 1)
      ensures old(n.next) !in nodes
    {
      ghost var s := nodes;
      ghost var i := IndexOf(s, n);
      NodeLinks(n);
      NodeLinks(n.next);
      DistinctAt(s, i);
      IndexOfDistinct(s, i + 1);
      n.next := n.next.next;
      ChainedRemove(s, i);
      DistinctRemove(s, i + 1);
      nodes := RemoveAt(s, i + 1);
    }

    /** Removing the head undoes inserting one: the contents and `first`
        are back to what they were, also when the list was empty. */
    method InsertHeadThenRemoveHead(n: Node)
      requires Valid() && n !in nodes
      modifies this, n
      ensures Valid() && nodes == old(nodes) && first == old(first)
    {
      InsertHead(n);
      RemoveHead();
    }

    /** Removing after `b` undoes inserting `a` after `b`: the contents and
        the head are back to what they were. */
    method InsertAfterThenRemoveAfter(b: Node, a: Node)
      requires Valid() && b in nodes && a !in nodes
      modifies this`nodes, b, a
      ensures Valid() && nodes == old(nodes) && first == old(first)
    {
      ghost var s := nodes;
      ghost var i := IndexOf(s, b);
      InsertAfter(b, a);
      IndexOfDistinct(nodes, i);
      RemoveAfter(b);
      RemoveInsert(s, i + 1, a);
    }

    /** zf_slist_swap: exchange the contents of two heads. Only the heads are
        written, never a node. */
    static method Swap(h1: Head, h2: Head)
      requires h1.Valid() && h2.Valid()
      modifies h1, h2
      ensures h1.Valid() && h2.Valid()
      ensures h1.first == old(h2.first) && h2.first == old(h1.first)
      ensures h1.nodes == old(h2.nodes) && h2.nodes == old(h1.nodes)
    {
      var n := h1.first;
      h1.first := h2.first;
      h2.first := n;
      h1.nodes, h2.nodes := h2.nodes, h1.nodes;
    }

    /** Swapping twice gives both heads back what they held. */
    static method SwapTwice(h1: Head, h2: Head)
      requires h1.Valid() && h2.Valid()
      modifies h1, h2
      ensures h1.Valid() && h2.Valid()
      ensures h1.first == old(h1.first) && h2.first == old(h2.first)
      ensures h1.nodes == old(h1.nodes) && h2.nodes == old(h2.nodes)
    {
      Swap(h1, h2);
      Swap(h1, h2);
    }

    /** The successor of the node `n`, by its position. */
    lemma NodeLinks(n: Node)
      requires Valid() && n in nodes
      ensures var i := IndexOf(nodes, n);
        n.next == if i + 1 < |nodes| then nodes[i + 1] else null
    {
      var i := IndexOf(nodes, n);
      if i + 1 < |nodes| {
        assert nodes[i].next == nodes[i + 1];
      }
    }

    /** Walking `k` steps along `next` from `n`. */
    ghost function Follow(n: Node?, k: nat): Node?
      reads this, nodes
      requires Valid() && (n == null || n in nodes)
      decreases k
    {
      if k == 0 || n == null then n
      else
        NodeLinks(n);
        Follow(n.next, k - 1)
    }

    /** From the node at position `i`, `k` steps along `next` reach position
        `i + k`, or null once past the end. */
    lemma {:induction false} FollowFrom(i: nat, k: nat)
      requires Valid() && i < |nodes| && i + k <= |nodes|
      ensures Follow(nodes[i], k) == if i + k < |nodes| then nodes[i + k] else null
      decreases k
    {
      if k > 0 {
        if i + 1 < |nodes| {
          assert nodes[i].next == nodes[i + 1];
          FollowFrom(i + 1, k - 1);
        } else {
          assert nodes[i].next == null;
        }
      }
    }

    /** Forward traversal from `first` lists exactly `nodes` and then hits
        null: the chain is acyclic and null-terminated. */
    lemma Traversal(k: nat)
      requires Valid() && k <= |nodes|
      ensures Follow(first, k) == if k < |nodes| then nodes[k] else null
    {
      if nodes != [] {
        FollowFrom(0, k);
      }
    }
  }
}
