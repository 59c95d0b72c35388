/** Singly-linked tail queue (the zf_stailq_* part of zf_queue/zf_queue.h).

    The head holds `first` and `last`, both null when the queue is empty;
    every node holds `next`. Each mutator carries a small branch that keeps
    `last` on the final node.

    zf_stailq_node is a type of its own, separate from zf_slist_node though
    laid out the same, so this module has its own Node class. The chain
    predicate and the splice, cut and traversal lemmas about it repeat those
    of module SList for that class. */
module STailQ {
  import opened Seqs

  /** zf_stailq_node: the link field an element embeds. */
  class Node {
    var next: Node?

    /** An unlinked node: its links mean nothing until an insert writes them. */
    constructor ()
    {
    }
  }

  /** Each node of `s` links to the one after it. */
  ghost predicate Chained(s: seq<Node>)
    reads s
  {
    forall i {:trigger s[i].next} :: 0 <= i < |s| - 1 ==> s[i].next == s[i + 1]
  }

  /** Splicing `n` in after position `i`: once `s[i]` links to `n` and `n`
      to the old successor, the longer sequence is chained again. */
  lemma ChainedInsert(s: seq<Node>, i: nat, n: Node)
    requires i < |s|
    requires forall j {:trigger s[j].next} :: 0 <= j < |s| - 1 && j != i ==> s[j].next == s[j + 1]
    requires s[i].next == n && (i + 1 < |s| ==> n.next == s[i + 1])
    ensures Chained(InsertAt(s, i + 1, n))
  {
    var r := InsertAt(s, i + 1, n);
    forall j | 0 <= j < |r| - 1 ensures r[j].next == r[j + 1] {
      if j < i {
        assert r[j] == s[j] && r[j + 1] == s[j + 1];
      } else if j > i + 1 {
        assert r[j] == s[j - 1] && r[j + 1] == s[j];
      }
    }
  }

  /** Cutting out the node after position `i`: once `s[i]` links past it,
      the shorter sequence is chained again. */
  lemma ChainedRemove(s: seq<Node>, i: nat)
    requires i + 1 < |s|
    requires forall j {:trigger s[j].next} :: 0 <= j < |s| - 1 && j != i && j != i + 1 ==> s[j].next == s[j + 1]
    requires i + 2 < |s| ==> s[i].next == s[i + 2]
    ensures Chained(RemoveAt(s, i + 1))
  {
    var r := RemoveAt(s, i + 1);
    forall j | 0 <= j < |r| - 1 ensures r[j].next == r[j + 1] {
      if j < i {
        assert r[j] == s[j] && r[j + 1] == s[j + 1];
      } else if j > i {
        assert r[j] == s[j + 1] && r[j + 1] == s[j + 2];
      }
    }
  }

  /** zf_stailq_head. `nodes` is the abstract contents, first to last. */
  class Head {
    var first: Node?
    var last: Node?
    ghost var nodes: seq<Node>

    /** The `next` chain from `first` lists `nodes`, each node once, and
        ends in null; `first` and `last` are both null exactly when the
        queue is empty, and otherwise `last` is the final node. */
    ghost predicate Valid()
      reads this, nodes
    {
      && Distinct(nodes)
      && (nodes == [] ==> first == null && last == null)
      && (nodes != [] ==>
            && first == nodes[0] && last == nodes[|nodes| - 1]
            && nodes[|nodes| - 1].next == null)
      && Chained(nodes)
    }

    /** ZF_STAILQ_INITIALIZER: the head value {0, 0}. */
    constructor Initializer()
      ensures Valid() && nodes == [] && first == null && last == null
    {
      first, last := null, null;
      nodes := [];
    }

    /** zf_stailq_init */
    method Init()
      modifies this
      ensures Valid() && nodes == [] && first == null && last == null
    {
      first := null;
      last := null;
      nodes := [];
    }

    /** zf_stailq_empty */
    function Empty(): (r: bool)
      reads this, nodes
      requires Valid()
      ensures r <==> nodes == []
    {
      first == null
    }

    /** zf_stailq_first */
    function First(): (r: Node?)
      reads this, nodes
      requires Valid()
      ensures r == null <==> nodes == []
      ensures r != null ==> r == nodes[0]
    {
      first
    }

    /** zf_stailq_last */
    function Last(): (r: Node?)
      reads this, nodes
      requires Valid()
      ensures r == null <==> nodes == []
      ensures r != null ==> r == nodes[|nodes| - 1] && r.next == null
    {
      last
    }

    /** zf_stailq_next: the successor of `n`, null for the last node. The
        source takes no head; the head only supplies the contents `n` is
        judged against. */
    function Next(n: Node): (r: Node?)
      reads this, nodes
      requires Valid() && n in nodes
      ensures r == null <==> IndexOf(nodes, n) == |nodes| - 1
      ensures r != null ==> r == nodes[IndexOf(nodes, n) + 1]
    {
      NodeLinks(n);
      n.next
    }

    /** zf_stailq_insert_head: `n` becomes the first node, and also the last
        one when the queue was empty. */
    method InsertHead(n: Node)
      requires Valid() && n !in nodes
      modifies this, n
      ensures Valid() && nodes == [n] + old(nodes)
      ensures first == n
      ensures last == if old(nodes) == [] then n else old(last)
    {
      ghost var s := nodes;
      n.next := first;
      if n.next == null {
        last := n;
      }
      first := n;
      DistinctInsert(s, 0, n);
      nodes := InsertAt(s, 0, n);
      assert nodes == [n] + s;
      forall i | 1 <= i < |nodes| - 1 ensures nodes[i].next == nodes[i + 1] {
        assert nodes[i] == s[i - 1] && nodes[i + 1] == s[i];
      }
    }

    /** zf_stailq_insert_tail: `n` becomes the last node; on an empty queue
        it becomes the first as well. */
    method InsertTail(n: Node)
      requires Valid() && n !in nodes
      modifies this, n, last
      ensures Valid() && nodes == old(nodes) + [n]
      ensures last == n && n.next == null
      ensures first == if old(nodes) == [] then n else old(first)
    {
      ghost var s := nodes;
      n.next := null;
      if first == null {
        first := n;
        last := n;
      } else {
        last.next := n;
        last := n;
      }
      DistinctInsert(s, |s|, n);
      nodes := InsertAt(s, |s|, n);
      assert nodes == s + [n];
      forall i | 0 <= i < |s| - 1 ensures nodes[i].next == nodes[i + 1] {
        assert nodes[i] == s[i] && nodes[i + 1] == s[i + 1];
      }
    }

    /** zf_stailq_insert_after(p, n): splice `n` in right after `p`; `last`
        moves to `n` only when `p` was the last node. */
    method InsertAfter(p: Node, n: Node)
      requires Valid() && p in nodes && n !in nodes
      modifies this, p, n
      ensures Valid() && nodes == InsertAt(old(nodes), IndexOf(old(nodes), p) + 1, n)
      ensures first == old(first)
      ensures last == if p == old(last) then n else old(last)
      ensures Next(p) == n
    {
      ghost var s := nodes;
      ghost var i := IndexOf(s, p);
      NodeLinks(p);
      DistinctAt(s, i);
      IndexOfDistinct(s, |s| - 1);
      n.next := p.next;
      if n.next == null {
        last := n;
      }
      p.next := n;
      ChainedInsert(s, i, n);
      DistinctInsert(s, i + 1, n);
      nodes := InsertAt(s, i + 1, n);
      IndexOfDistinct(nodes, i);
    }

    /** zf_stailq_remove_head: drop the first node (undefined on an empty
        queue, so non-emptiness is required); `last` is reset to null when
        the queue becomes empty. */
    method RemoveHead()
      requires Valid() && nodes != []
      modifies this
      ensures Valid() && nodes == old(nodes)[1..]
      ensures last == if |old(nodes)| == 1 then null else old(last)
    {
      ghost var s := nodes;
      if |s| > 1 {
        assert s[0].next == s[1];
      }
      first := first.next;
      if first == null {
        last := null;
      }
      DistinctRemove(s, 0);
      nodes := RemoveAt(s, 0);
    }

    /** zf_stailq_remove_after(n): drop the node after `n`, which must exist;
        `last` moves back to `n` when the dropped node was the last one. */
    method RemoveAfter(n: Node)
      requires Valid() && n in nodes && n.next != null
      modifies this, n
      ensures Valid() && nodes == RemoveAt(old(nodes), IndexOf(old(nodes), n) + 1)
      ensures old(n.next) !in nodes
      ensures first == old(first)
      ensures last == if old(n.next) == old(last) then n else old(last)
    {
      ghost var s := nodes;
      ghost var i := IndexOf(s, n);
      NodeLinks(n);
      NodeLinks(n.next);
      DistinctAt(s, i);
      IndexOfDistinct(s, i + 1);
      IndexOfDistinct(s, |s| - 1);
      n.next := n.next.next;
      if n.next == null {
        last := n;
      }
      ChainedRemove(s, i);
      DistinctRemove(s, i + 1);
      nodes := RemoveAt(s, i + 1);
    }

    /** Removing the head undoes inserting one: the contents, `first` and
        `last` are back to what they were, also when the queue was empty. */
    method InsertHeadThenRemoveHead(n: Node)
      requires Valid() && n !in nodes
      modifies this, n
      ensures Valid() && nodes == old(nodes)
      ensures first == old(first) && last == old(last)
    {
      InsertHead(n);
      RemoveHead();
    }

    /** Removing after `p` undoes inserting `n` after `p`: the contents,
        `first` and `last` are back to what they were, also when `p` was
        the last node. */
    method InsertAfterThenRemoveAfter(p: Node, n: Node)
      requires Valid() && p in nodes && n !in nodes
      modifies this, p, n
      ensures Valid() && nodes == old(nodes)
      ensures first == old(first) && last == old(last)
    {
      ghost var s := nodes;
      ghost var i := IndexOf(s, p);
      InsertAfter(p, n);
      IndexOfDistinct(nodes, i);
      RemoveAfter(p);
      RemoveInsert(s, i + 1, n);
    }

    /** The successor of the node `n`, by its position. */
    lemma NodeLinks(n: Node)
      requires Valid() && n in nodes
      ensures var i := IndexOf(nodes, n);
        n.next == if i + 1 < |nodes| then nodes[i + 1] else null
    {
      var i := IndexOf(nodes, n);
      if i + 1 < |nodes| {
        assert nodes[i].next == nodes[i + 1];
      }
    }

    /** Walking `k` steps along `next` from `n`. */
    ghost function Follow(n: Node?, k: nat): Node?
      reads this, nodes
      requires Valid() && (n == null || n in nodes)
      decreases k
    {
      if k == 0 || n == null then n
      else
        NodeLinks(n);
        Follow(n.next, k - 1)
    }

    /** From the node at position `i`, `k` steps along `next` reach position
        `i + k`, or null once past the end. */
    lemma {:induction false} FollowFrom(i: nat, k: nat)
      requires Valid() && i < |nodes| && i + k <= |nodes|
      ensures Follow(nodes[i], k) == if i + k < |nodes| then nodes[i + k] else null
      decreases k
    {
      if k > 0 {
        if i + 1 < |nodes| {
          assert nodes[i].next == nodes[i + 1];
          FollowFrom(i + 1, k - 1);
        } else {
          assert nodes[i].next == null;
        }
      }
    }

    /** `last` is where forward traversal from `first` ends: walking one
        step fewer than the length reaches `last`, one step more hits null. */
    lemma LastEndsChain()
      requires Valid() && nodes != []
      ensures Follow(first, |nodes| - 1) == last
      ensures Follow(first, |nodes|) == null
    {
      FollowFrom(0, |nodes| - 1);
      FollowFrom(0, |nodes|);
    }

    /** `first` is null exactly when `last` is. */
    lemma EndsAgree()
      requires Valid()
      ensures first == null <==> last == null
    {
    }
  }
}
