/** Four functions of linked_list.c disagree with their own documentation.
    LinkedLists models the documented behaviour; this module models what the
    code does as written, and the lemmas here exhibit each disagreement. */
module AsWritten {
  import opened ListSpec
  import opened LinkedLists

  /** linked_list_size as written: a NULL list (`None`) reports 0, the same as
      an empty one, where the documentation promises SIZE_MAX. */
  function SizeAsWritten(ll: Option<seq<u32>>): (n: nat)
    ensures ll.Some? ==> n == |ll.value|
    ensures ll.None? ==> n == 0
  {
    match ll
    case None => 0
    case Some(s) => if s == [] then 0 else |s|
  }

  /** A NULL list and an empty list are indistinguishable to
      linked_list_size as written, and neither reports SIZE_MAX. */
  lemma SizeAsWrittenNullLooksEmpty()
    ensures SizeAsWritten(None) == SizeAsWritten(Some([]))
    ensures SizeAsWritten(None) != SIZE_MAX
  {
  }

  /** linked_list_find as written returns the scanned length on a miss: on a
      list that does not hold `x` it returns `|s|`, which the documented
      result (SIZE_MAX) never equals on a list shorter than SIZE_MAX. */
  lemma FindMissAsWritten(s: seq<u32>, x: u32)
    requires x !in s && |s| < SIZE_MAX
    ensures Scan(s, x) == |s|
    ensures IndexOf(s, x) == SIZE_MAX
    ensures Scan(s, x) != IndexOf(s, x)
  {
  }

  /** linked_list_insert_end as written: on any non-NULL list the loop advances
      `head` itself until it is NULL, so every node is cut off from the list,
      and the store into `head->data` that follows dereferences NULL. */
  method InsertEndAsWritten(ll: LinkedList?, data: u32) returns (derefsNull: bool)
    requires ll != null ==> ll.Valid()
    modifies ll
    ensures ll == null ==> !derefsNull
    ensures ll != null ==> derefsNull && ll.head == null
  {
    if ll == null {
      return false;
    }
    ghost var nodes := ll.Nodes;
    ghost var k := 0;
    while ll.head != null
      invariant k <= |nodes|
      invariant ll.head == if k < |nodes| then nodes[k] else null
      invariant forall j | 0 <= j < |nodes| - 1 :: nodes[j].next == nodes[j + 1]
      invariant nodes != [] ==> nodes[|nodes| - 1].next == null
      decreases |nodes| - k
    {
      ll.head := ll.head.next;
      k := k + 1;
    }
    // `ll->head->data = data;` with `ll->head == NULL`.
    derefsNull := true;
  }

  /** linked_list_create_iterator as written: it dereferences `ll` without a
      NULL check, walks `index` links without checking for the end, and stores
      through the pointer `malloc_fptr` returned without checking it. It
      dereferences NULL exactly when the list is NULL, `index` is past the
      end, or the allocation fails. */
  method CreateIteratorAsWritten(ll: LinkedList?, index: nat, alloc: bool) returns (derefsNull: bool)
    requires ll != null ==> ll.Valid()
    ensures derefsNull <==> ll == null || index >= |ll.Contents| || !alloc
  {
    if ll == null {
      return true;
    }
    var nodePtr := ll.head;
    var i := 0;
    while i < index
      invariant i <= index && i <= |ll.Nodes|
      invariant nodePtr == if i < |ll.Nodes| then ll.Nodes[i] else null
    {
      if nodePtr == null {
        return true;
      }
      ll.NextAt(i);
      nodePtr := nodePtr.next;
      i := i + 1;
    }
    derefsNull := nodePtr == null || !alloc;
  }
}
