/** Client methods that replay the repository's own usage scenarios against
    the contracts of the three containers, asserting what each scenario
    expects to observe. TailQBuild allocates its entries and head and builds
    the queue itself; the others start from the container state the scenario
    has reached, stated as a precondition. */
module Scenarios {
  import SList
  import STailQ
  import TailQ
  import opened Seqs

  /** A node inserted after the first one of three lands between it and its
      old successor (test/test_zf_queue.h:40-66). */
  method SListInsertAfter(h: SList.Head, n0: SList.Node, n1: SList.Node, n2: SList.Node, n3: SList.Node)
    requires h.Valid() && h.nodes == [n0, n1, n2] && n3 !in h.nodes
    modifies h, n0, n3
  {
    h.InsertAfter(n0, n3);
    assert h.nodes == [n0, n3, n1, n2];
    assert !h.Empty() && h.First() == n0;
    IndexOfDistinct(h.nodes, 0);
    IndexOfDistinct(h.nodes, 3);
    assert h.Next(n0) == n3 && h.Next(n2) == null;
  }

  /** Exchange two two-node lists (test/test_zf_queue.h:110-129). */
  method SListSwap(ha: SList.Head, hb: SList.Head,
                   na0: SList.Node, na1: SList.Node, nb0: SList.Node, nb1: SList.Node)
    requires ha != hb && ha.Valid() && hb.Valid()
    requires ha.nodes == [na1, na0] && hb.nodes == [nb1, nb0]
    modifies ha, hb
  {
    SList.Head.Swap(ha, hb);
    assert ha.First() == nb1 && ha.nodes == [nb1, nb0];
    assert hb.First() == na1 && hb.nodes == [na1, na0];
  }

  /** Drop the first of three nodes (test/test_zf_queue.h:263-289). */
  method STailQRemoveHead(h: STailQ.Head, a: STailQ.Node, b: STailQ.Node, c: STailQ.Node)
    requires h.Valid() && h.nodes == [a, b, c]
    modifies h
  {
    h.RemoveHead();
    assert h.nodes == [b, c];
    assert h.First() == b && h.Last() == c;
  }

  /** Remove after the first of four nodes, then after the new third one,
      which drops the last node and moves `last` back
      (test/test_zf_queue.h:291-318). */
  method STailQRemoveAfter(h: STailQ.Head, n0: STailQ.Node, n1: STailQ.Node, n2: STailQ.Node, n3: STailQ.Node)
    requires h.Valid() && h.nodes == [n0, n1, n2, n3]
    modifies h, n0, n2
  {
    h.RemoveAfter(n0);
    assert h.nodes == [n0, n2, n3] && h.Last() == n3;
    IndexOfDistinct(h.nodes, 1);
    h.RemoveAfter(n2);
    assert h.nodes == [n0, n2] && h.Last() == n2;
  }

  /** The end of the same scenario: removing after the first of two nodes
      leaves it both first and last (test/test_zf_queue.h:291-318). */
  method STailQRemoveAfterToOne(h: STailQ.Head, n0: STailQ.Node, n2: STailQ.Node)
    requires h.Valid() && h.nodes == [n0, n2]
    modifies h, n0
  {
    h.RemoveAfter(n0);
    assert h.nodes == [n0] && h.First() == n0 && h.Last() == n0;
  }

  /** From four elements, remove both ends, look at what is left, then
      empty the queue (test/test.cpp:176-216). */
  method TailQRemove(h: TailQ.Head, n0: TailQ.Entry, n1: TailQ.Entry, n2: TailQ.Entry, n3: TailQ.Entry)
    requires h.Valid() && h.elems == [n0, n1, n2, n3]
    modifies h, h.root, n0, n1, n2, n3
  {
    h.Remove(n0);
    assert h.elems == [n1, n2, n3];
    IndexOfDistinct(h.elems, 2);
    h.Remove(n3);
    assert h.elems == [n1, n2];
    assert h.First() == n1 && h.Last() == n2;
    IndexOfDistinct(h.elems, 0);
    IndexOfDistinct(h.elems, 1);
    assert h.Next(n1) == n2 && h.Prev(n2) == n1 && h.Prev(n1) == null;
    h.Remove(n1);
    h.Remove(n2);
    assert h.Empty() && h.First() == null && h.Last() == null;
  }

  /** A queue built from scratch: the initializer, then two appends, reads
      back in order (test/test.cpp:144-174). */
  method TailQBuild()
  {
    var n0 := new TailQ.Entry();
    var n1 := new TailQ.Entry();
    var h := new TailQ.Head.Initializer();
    assert h.Empty();
    h.InsertTail(n0);
    h.InsertTail(n1);
    assert h.elems == [n0, n1];
    assert h.First() == n0 && h.Last() == n1;
  }
}
