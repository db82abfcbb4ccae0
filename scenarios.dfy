/** Usage scenarios of the list and iterator, checked against the contracts
    of LinkedLists alone. */
module Scenarios {
  import opened ListSpec
  import opened LinkedLists

  /** Three appends to a fresh list, then size and find. */
  method AppendThenFind()
  {
    var ll := Create(true, true);
    var ok := InsertEnd(ll, 10, true);
    ok := InsertEnd(ll, 20, true);
    ok := InsertEnd(ll, 30, true);
    assert ll.Contents == [10, 20, 30];
    var n := Size(ll);
    assert n == 3;
    var at := Find(ll, 20);
    assert ll.Contents[1] == 20;
    assert at == 1;
    at := Find(ll, 40);
    assert at == SIZE_MAX;
  }

  /** Insertion at the front and in the middle of [10, 20, 30]. */
  method InsertFrontThenMiddle(ll: LinkedList)
    requires ll.Valid() && ll.Contents == [10, 20, 30]
    modifies ll.Repr
  {
    var ok := InsertFront(ll, 5, true);
    assert ll.Contents == [5, 10, 20, 30];
    ok := Insert(ll, 2, 15, true);
    assert ll.Contents == [5, 10, 15, 20, 30];
    var n := Size(ll);
    assert n == 5;
  }

  /** Removal at the front, at the tail and past the end of [5, 10, 15, 20, 30]. */
  method RemoveThree(ll: LinkedList)
    requires ll.Valid() && ll.Contents == [5, 10, 15, 20, 30]
    modifies ll.Repr
  {
    var ok, released := Remove(ll, 0);
    assert ll.Contents == [10, 15, 20, 30];
    ok, released := Remove(ll, 3);
    assert ll.Contents == [10, 15, 20];
    ok, released := Remove(ll, 5);
    assert !ok && ll.Contents == [10, 15, 20];
  }

  /** An iterator from position 1 of [10, 15, 20]. */
  method IterateFromOne(ll: LinkedList)
    requires ll.Valid() && ll.Contents == [10, 15, 20]
  {
    var it := CreateIterator(ll, 1, true);
    assert it != null && it.data == 15;
    var more := Iterate(it);
    assert more && it.data == 20;
    more := Iterate(it);
    assert !more;
    var ok := DeleteIterator(it);
    assert ok;
  }

  /** No list without a registered allocator; a failed allocation changes
      nothing; deleting empties the list. */
  method FailuresAndDelete()
  {
    var none := Create(false, true);
    assert none == null;
    var ll := Create(true, true);
    var ok := InsertFront(ll, 7, false);
    var n := Size(ll);
    assert !ok && n == 0;
    ok := InsertFront(ll, 7, true);
    ghost var released;
    ok, released := Delete(ll);
    n := Size(ll);
    assert ok && n == 0 && |released| == 1;
  }

  /** A deleted list is ready for reuse within the caller's frame. */
  method DeleteThenReuse(ll: LinkedList)
    requires ll.Valid()
    modifies ll.Repr
  {
    var ok, released := Delete(ll);
    ok := Insert(ll, 0, 1, true);
    assert ok && ll.Contents == [1];
  }
}
