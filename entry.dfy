/** Entry lookup: recovering the element that embeds a node from the node's
    address (zf_entry and zf_entry_ in zf_queue/zf_queue.h).

    Addresses are byte addresses. The node field sits at a fixed byte
    offset inside its element type, known at compile time (offsetof). */
module EntryLookup {

  /** The address of the field at byte `offset` inside the element placed
      at `element`: `&e->field`. */
  function FieldAddress(element: int, offset: nat): int
  {
    element + offset
  }

  /** zf_entry(node, type, member): step back from the node's address by the
      field's offset. The result is the element whose field lives at `node`. */
  function EntryOf(node: int, offset: nat): (r: int)
    ensures FieldAddress(r, offset) == node
  {
    node - offset
  }

  /** zf_entry_(node, &T::member): the same arithmetic, with the offset read
      as the field's address inside an element placed at address 0. */
  function EntryOfMember(node: int, offset: nat): (r: int)
    ensures r == EntryOf(node, offset)
  {
    node - FieldAddress(0, offset)
  }

  /** Looking up the entry of an element's own node gives back the element. */
  lemma EntryRoundTrip(element: int, offset: nat)
    ensures EntryOf(FieldAddress(element, offset), offset) == element
    ensures EntryOfMember(FieldAddress(element, offset), offset) == element
  {
  }
}
