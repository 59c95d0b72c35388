/** Doubly-linked tail queue whose head embeds a sentinel entry, `root`
    (include/zf_queue.hpp).

    Every element embeds one entry. `next` names the following element, or
    is null for the last one. `prev` names the entry just before this one:
    the previous element's entry, or `root` for the first element.
    `root.next` is the first element, and `root.prev` is the last element's
    entry, or `root` itself when the queue is empty. The last element and an
    element's predecessor are both read through two `prev` hops and one
    `next` hop, with no special case at either end.

    An element and the entry it embeds are one object here, and `root` is
    an object of the same class. */
module TailQ {
  import opened Seqs

  /** zf_tailq_entry: the link record an element embeds. */
  class Entry {
    var next: Entry?
    var prev: Entry?

    /** An unlinked entry: its links mean nothing until an insert writes them. */
    constructor ()
    {
    }
  }

  /** Each entry of `s` links forward to the one after it, and the last one
      to null. */
  ghost predicate NextLinked(s: seq<Entry>)
    reads s
  {
    forall i {:trigger s[i].next} :: 0 <= i < |s| ==>
      s[i].next == if i + 1 < |s| then s[i + 1] else null
  }

  /** Each entry of `s` links back to the one before it, and the first one
      to `root`. */
  ghost predicate PrevLinked(root: Entry, s: seq<Entry>)
    reads s
  {
    forall i {:trigger s[i].prev} :: 0 <= i < |s| ==>
      s[i].prev == if i == 0 then root else s[i - 1]
  }

  /** Cutting out the entry at position `i`: once the entry before it links
      forward past it, the shorter sequence is forward-linked again. */
  lemma NextLinkedRemove(s: seq<Entry>, i: nat)
    requires i < |s|
    requires forall j {:trigger s[j].next} :: 0 <= j < |s| && j != i - 1 && j != i ==>
      s[j].next == if j + 1 < |s| then s[j + 1] else null
    requires i > 0 ==> s[i - 1].next == if i + 1 < |s| then s[i + 1] else null
    ensures NextLinked(RemoveAt(s, i))
  {
    var r := RemoveAt(s, i);
    forall j | 0 <= j < |r| ensures r[j].next == if j + 1 < |r| then r[j + 1] else null {
      if j < i {
        assert r[j] == s[j];
      } else {
        assert r[j] == s[j + 1];
      }
    }
  }

  /** Cutting out the entry at position `i`: once the entry after it links
      back past it, the shorter sequence is backward-linked again. */
  lemma PrevLinkedRemove(root: Entry, s: seq<Entry>, i: nat)
    requires i < |s|
    requires forall j {:trigger s[j].prev} :: 0 <= j < |s| && j != i && j != i + 1 ==>
      s[j].prev == if j == 0 then root else s[j - 1]
    requires i + 1 < |s| ==> s[i + 1].prev == if i == 0 then root else s[i - 1]
    ensures PrevLinked(root, RemoveAt(s, i))
  {
    var r := RemoveAt(s, i);
    forall j | 0 <= j < |r| ensures r[j].prev == if j == 0 then root else r[j - 1] {
      if j < i {
        assert r[j] == s[j];
      } else {
        assert r[j] == s[j + 1];
      }
    }
  }

  /** zf_tailq_head: the anchor, holding the sentinel entry. `elems` is the
      abstract contents, first to last. */
  class Head {
    const root: Entry
    ghost var elems: seq<Entry>

    /** The representation invariant: the `next` chain from `root` lists
        `elems` and ends in null; every `prev` names the entry before it
        (`root` for the first); `root.prev` names the last entry, or `root`
        when empty. */
    ghost predicate Valid()
      reads this, root, elems
    {
      && root !in elems
      && Distinct(elems)
      && root.next == (if elems == [] then null else elems[0])
      && root.prev == (if elems == [] then root else elems[|elems| - 1])
      && NextLinked(elems)
      && PrevLinked(root, elems)
    }

    /** zf_tailq_initializer: a head value whose root links back to itself. */
    constructor Initializer()
      ensures Valid() && elems == []
      ensures root.next == null && root.prev == root
      ensures Empty() && First() == null && Last() == null
      ensures fresh(root)
    {
      var r := new Entry();
      r.next, r.prev := null, r;
      root := r;
      elems := [];
    }

    /** zf_tailq_init: make the queue empty, whatever it held. */
    method Init()
      modifies this`elems, root
      ensures Valid() && elems == []
      ensures root.next == null && root.prev == root
      ensures Empty() && First() == null && Last() == null
    {
      root.next := null;
      root.prev := root;
      elems := [];
    }

    /** zf_tailq_empty */
    function Empty(): (r: bool)
      reads this, root, elems
      requires Valid()
      ensures r <==> elems == []
    {
      root.next == null
    }

    /** zf_tailq_first */
    function First(): (r: Entry?)
      reads this, root, elems
      requires Valid()
      ensures r == null <==> elems == []
      ensures r != null ==> r == elems[0]
    {
      root.next
    }

    /** zf_tailq_last: root.prev is the last entry, its prev the entry before
        it, whose next is the last element; on an empty queue every hop stays
        on root and the result is root.next, null. */
    function Last(): (r: Entry?)
      reads this, root, elems
      requires Valid()
      ensures r == null <==> elems == []
      ensures r != null ==> r == elems[|elems| - 1]
    {
      RootLinks();
      root.prev.prev.next
    }

    /** zf_tailq_next */
    function Next(e: Entry): (r: Entry?)
      reads this, root, elems
      requires Valid() && e in elems
      ensures r == null <==> IndexOf(elems, e) == |elems| - 1
      ensures r != null ==> r == elems[IndexOf(elems, e) + 1]
    {
      EntryLinks(e);
      e.next
    }

    /** zf_tailq_prev: for the first element the hops go root, then the last
        entry, whose next is null. */
    function Prev(e: Entry): (r: Entry?)
      reads this, root, elems
      requires Valid() && e in elems
      ensures r == null <==> IndexOf(elems, e) == 0
      ensures r != null ==> r == elems[IndexOf(elems, e) - 1]
    {
      EntryLinks(e);
      e.prev.prev.next
    }

    /** zf_tailq_insert_head: `e` becomes the first element; when the queue
        was empty it also becomes the last one, through root.prev. */
    method InsertHead(e: Entry)
      requires Valid() && e != root && e !in elems
      modifies this`elems, root, e, (if elems == [] then {} else {elems[0]})
      ensures Valid() && elems == [e] + old(elems)
      ensures First() == e
      ensures old(elems) == [] ==> Last() == e
      ensures old(elems) != [] ==> Last() == old(Last())
    {
      ghost var s := elems;
      if s != [] {
        DistinctAt(s, 0);
      }
      e.next := root.next;
      if e.next != null {
        e.next.prev := e;
      } else {
        root.prev := e;
      }
      root.next := e;
      e.prev := root;
      DistinctInsert(s, 0, e);
      elems := InsertAt(s, 0, e);
      forall i | 1 <= i < |elems|
        ensures elems[i].next == if i + 1 < |elems| then elems[i + 1] else null
        ensures elems[i].prev == elems[i - 1]
      {
        assert elems[i] == s[i - 1];
      }
    }

    /** zf_tailq_insert_tail: `e` becomes the last element; root.prev is
        always a real entry, so there is no branch on emptiness. */
    method InsertTail(e: Entry)
      requires Valid() && e != root && e !in elems
      modifies this`elems, root, root.prev, e
      ensures Valid() && elems == old(elems) + [e]
      ensures Last() == e && e.next == null
    {
      ghost var s := elems;
      if s != [] {
        DistinctAt(s, |s| - 1);
      }
      e.next := null;
      e.prev := root.prev;
      root.prev.next := e;
      root.prev := e;
      DistinctInsert(s, |s|, e);
      elems := InsertAt(s, |s|, e);
      forall i | 0 <= i < |s|
        ensures elems[i].next == elems[i + 1]
        ensures elems[i].prev == if i == 0 then root else elems[i - 1]
      {
        assert elems[i] == s[i];
      }
    }

    /** zf_tailq_remove: unlink `e`, rewriting only its neighbours (and root);
        `e`'s own fields are read, never written. */
    method Remove(e: Entry)
      requires Valid() && e in elems
      modifies this`elems, root, e.prev, e.next
      ensures Valid() && elems == RemoveAt(old(elems), IndexOf(old(elems), e))
      ensures e !in elems
      ensures unchanged(e)
      ensures old(e.next) == null ==> root.prev == old(e.prev)
      ensures elems == [] <==> |old(elems)| == 1
    {
      ghost var s := elems;
      ghost var i := IndexOf(s, e);
      EntryLinks(e);
      if i > 0 {
        DistinctAt(s, i - 1);
      }
      if i + 1 < |s| {
        DistinctAt(s, i + 1);
      }
      if e.next != null {
        e.next.prev := e.prev;
      } else {
        root.prev := e.prev;
      }
      e.prev.next := e.next;
      NextLinkedRemove(s, i);
      PrevLinkedRemove(root, s, i);
      DistinctRemove(s, i);
      elems := RemoveAt(s, i);
    }

    /** Removing the element just put at the front undoes the insert: the
        contents and the sentinel's links are back to what they were, also
        when the queue was empty. */
    method InsertHeadThenRemove(e: Entry)
      requires Valid() && e != root && e !in elems
      modifies this`elems, root, e, (if elems == [] then {} else {elems[0]})
      ensures Valid() && elems == old(elems)
      ensures root.next == old(root.next) && root.prev == old(root.prev)
    {
      ghost var s := elems;
      ghost var r0 := root.next;
      InsertHead(e);
      IndexOfDistinct(elems, 0);
      assert e.prev == root;
      assert e.next == r0;
      Remove(e);
      RemoveInsert(s, 0, e);
      assert elems == s;
    }

    /** Removing the element just appended undoes the append: the contents
        and the sentinel's links are back to what they were. */
    method InsertTailThenRemove(e: Entry)
      requires Valid() && e != root && e !in elems
      modifies this`elems, root, root.prev, e
      ensures Valid() && elems == old(elems)
      ensures root.next == old(root.next) && root.prev == old(root.prev)
    {
      ghost var s := elems;
      InsertTail(e);
      IndexOfDistinct(elems, |s|);
      Remove(e);
      RemoveInsert(s, |s|, e);
    }

    /** The links around the entry `e`, by its position. */
    lemma EntryLinks(e: Entry)
      requires Valid() && e in elems
      ensures var i := IndexOf(elems, e);
        && e.next == (if i + 1 < |elems| then elems[i + 1] else null)
        && e.prev == (if i == 0 then root else elems[i - 1])
        && e.prev.prev == (if i == 0 then elems[|elems| - 1] else if i == 1 then root else elems[i - 2])
    {
      var i := IndexOf(elems, e);
      DistinctAt(elems, i);
      if i > 0 {
        assert elems[i - 1].prev == if i == 1 then root else elems[i - 2];
      }
    }

    /** The links hanging off the sentinel. */
    lemma RootLinks()
      requires Valid()
      ensures root.prev == root || root.prev in elems
      ensures root.prev.prev == root || root.prev.prev in elems
      ensures root.prev.prev.next == if elems == [] then null else elems[|elems| - 1]
    {
      if elems != [] {
        var n := |elems|;
        assert elems[n - 1].prev == if n == 1 then root else elems[n - 2];
      }
    }

    /** Following a link from the root or an element stays among them. */
    lemma Closed(n: Entry)
      requires Valid() && (n == root || n in elems)
      ensures n.next == null || n.next in elems
      ensures n.prev == root || n.prev in elems
    {
      if n != root {
        EntryLinks(n);
      }
    }

    /** Walking `k` steps along `next` from `n`. */
    ghost function Follow(n: Entry?, k: nat): Entry?
      reads this, root, elems
      requires Valid() && (n == null || n == root || n in elems)
      decreases k
    {
      if k == 0 || n == null then n
      else
        Closed(n);
        Follow(n.next, k - 1)
    }

    /** From the element at position `i`, `k` steps along `next` reach
        position `i + k`, or null once past the end. */
    lemma {:induction false} FollowFrom(i: nat, k: nat)
      requires Valid() && i < |elems| && i + k <= |elems|
      ensures Follow(elems[i], k) == if i + k < |elems| then elems[i + k] else null
      decreases k
    {
      if k > 0 {
        if i + 1 < |elems| {
          assert elems[i].next == elems[i + 1];
          FollowFrom(i + 1, k - 1);
        } else {
          assert elems[i].next == null;
        }
      }
    }

    /** Forward traversal from the first element lists exactly `elems` and
        then hits null: the chain is acyclic and null-terminated. */
    lemma Traversal(k: nat)
      requires Valid() && k <= |elems|
      ensures Follow(root.next, k) == if k < |elems| then elems[k] else null
    {
      if elems != [] {
        FollowFrom(0, k);
      }
    }

    /** prev undoes next, and next undoes prev. */
    lemma PrevNext(e: Entry)
      requires Valid() && e in elems
      ensures Next(e) != null ==> Prev(Next(e)) == e
      ensures Prev(e) != null ==> Next(Prev(e)) == e
    {
      var i := IndexOf(elems, e);
      if i + 1 < |elems| {
        IndexOfDistinct(elems, i + 1);
      }
      if i > 0 {
        IndexOfDistinct(elems, i - 1);
      }
    }
  }
}
