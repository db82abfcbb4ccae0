/** The heap model of linked_list.c: nodes linked through `next`, a list header
    holding `head`, and a forward iterator. The C functions take pointers that
    may be NULL, so they are module-level methods over nullable references.
    A `malloc_fptr` call is an `alloc` parameter: true when it returned storage. */
module LinkedLists {
  import opened ListSpec

  /** `struct node`: one value and the link to its successor. */
  class Node {
    var data: u32
    var next: Node?

    constructor (data: u32, next: Node?)
      ensures this.data == data && this.next == next
    {
      this.data := data;
      this.next := next;
    }
  }

  /** `struct linked_list`: the header that owns the chain starting at `head`. */
  class LinkedList {
    var head: Node?

    /** The values of the chain, head first. */
    ghost var Contents: seq<u32>
    /** The chain itself: `Nodes[i]` is the node at position `i`. */
    ghost var Nodes: seq<Node>
    /** The header and every node of the chain. */
    ghost var Repr: set<object>

    /** The chain from `head` visits `Nodes` in order, each node once, ends in
        null, and spells out `Contents`. */
    ghost predicate Valid()
      reads this, Repr
      ensures Valid() ==> this in Repr
    {
      this in Repr &&
      |Nodes| == |Contents| &&
      (forall i | 0 <= i < |Nodes| :: Nodes[i] in Repr) &&
      head == (if Nodes == [] then null else Nodes[0]) &&
      (forall i | 0 <= i < |Nodes| :: Nodes[i].data == Contents[i]) &&
      (forall i | 0 <= i < |Nodes| - 1 :: Nodes[i].next == Nodes[i + 1]) &&
      (Nodes != [] ==> Nodes[|Nodes| - 1].next == null) &&
      (forall i, j | 0 <= i < j < |Nodes| :: Nodes[i] != Nodes[j])
    }

    /** The successor of the node at position `i`. */
    lemma NextAt(i: nat)
      requires Valid() && i < |Nodes|
      ensures Nodes[i].next == if i + 1 < |Nodes| then Nodes[i + 1] else null
    {
    }

    /** The initialisation done by linked_list_create: an empty list has its
        head point to null. */
    constructor ()
      ensures Valid() && fresh(Repr)
      ensures head == null && Contents == []
    {
      head := null;
      Contents, Nodes, Repr := [], [], {this};
    }
  }

  /** `struct iterator`: a cursor into `list` at `currentNode`, its position
      `currentIndex` and a copy `data` of its value. */
  class Iterator {
    var list: LinkedList
    var currentNode: Node?
    var currentIndex: nat
    var data: u32

    /** The iterator sits on a node of an unmodified list, at the right
        position, holding that node's value. */
    ghost predicate Valid()
      reads this, list, list.Repr
    {
      list.Valid() && this !in list.Repr &&
      currentIndex < |list.Nodes| &&
      currentNode == list.Nodes[currentIndex] &&
      data == list.Contents[currentIndex]
    }

    constructor (list: LinkedList, node: Node, index: nat, data: u32)
      ensures this.list == list && currentNode == node && currentIndex == index && this.data == data
    {
      this.list := list;
      currentNode := node;
      currentIndex := index;
      this.data := data;
    }
  }

  /** linked_list_create: null when no allocator is registered or it fails,
      otherwise a fresh empty list. */
  method Create(registered: bool, alloc: bool) returns (ll: LinkedList?)
    ensures ll == null <==> !registered || !alloc
    ensures ll != null ==> fresh(ll.Repr) && ll.Valid() && ll.head == null && ll.Contents == []
  {
    if !registered {
      return null;
    }
    if !alloc {
      return null;
    }
    ll := new LinkedList();
  }

  /** linked_list_delete: false on a null list; otherwise releases every node
      once, head first, and leaves the list empty. `released` lists the nodes
      handed to `free_fptr`, in order. */
  method Delete(ll: LinkedList?) returns (ok: bool, ghost released: seq<Node>)
    requires ll != null ==> ll.Valid()
    modifies ll
    ensures ok <==> ll != null
    ensures ll == null ==> released == []
    ensures ll != null ==> ll.Valid() && ll.head == null && ll.Contents == [] && released == old(ll.Nodes)
    ensures ll != null ==> ll.Repr == {ll}
  {
    if ll == null {
      return false, [];
    }
    var current := ll.head;
    ghost var k := 0;
    released := [];
    while current != null
      invariant ll.Valid() && k <= |ll.Nodes|
      invariant current == if k < |ll.Nodes| then ll.Nodes[k] else null
      invariant released == ll.Nodes[..k]
      decreases |ll.Nodes| - k
    {
      var next := current.next;
      released := released + [current];
      current := next;
      k := k + 1;
    }
    ll.head := null;
    ll.Contents, ll.Nodes, ll.Repr := [], [], {ll};
    ok := true;
  }

  /** linked_list_size: the number of nodes reachable from head.
      On a null list this returns the documented failure value SIZE_MAX;
      linked_list.c returns 0 there (see AsWritten.SizeAsWritten). */
  method Size(ll: LinkedList?) returns (n: nat)
    requires ll != null ==> ll.Valid()
    ensures ll == null ==> n == SIZE_MAX
    ensures ll != null ==> n == |ll.Contents|
  {
    if ll == null {
      return SIZE_MAX;
    }
    if ll.head == null {
      return 0;
    }
    var counter := 0;
    var curr := ll.head;
    while curr != null
      invariant ll.Valid() && counter <= |ll.Nodes|
      invariant curr == if counter < |ll.Nodes| then ll.Nodes[counter] else null
      decreases |ll.Nodes| - counter
    {
      curr := curr.next;
      counter := counter + 1;
    }
    n := counter;
  }

  /** linked_list_insert_end, as documented: appends a new node after the last
      one, or makes it the head of an empty list. linked_list.c instead walks
      `head` itself to null and writes through it (see AsWritten.InsertEndAsWritten). */
  method InsertEnd(ll: LinkedList?, data: u32, alloc: bool) returns (ok: bool)
    requires ll != null ==> ll.Valid()
    modifies if ll != null then ll.Repr else {}
    ensures ok <==> ll != null && alloc
    ensures ll != null ==> ll.Valid() && fresh(ll.Repr - old(ll.Repr))
    ensures ll != null ==> ll.Contents == if ok then old(ll.Contents) + [data] else old(ll.Contents)
    ensures ll != null && !ok ==> unchanged(old(ll.Repr))
  {
    if ll == null {
      return false;
    }
    if !alloc {
      return false;
    }
    ghost var nodes := ll.Nodes;
    var newNode := new Node(data, null);
    if ll.head == null {
      ll.head := newNode;
    } else {
      var last := ll.head;
      ghost var i := 0;
      while last.next != null
        invariant ll.Valid() && i < |ll.Nodes| && last == ll.Nodes[i]
        modifies {}
        decreases |ll.Nodes| - i
      {
        ll.NextAt(i);
        last := last.next;
        i := i + 1;
      }
      ll.NextAt(i);
      last.next := newNode;
    }
    ll.Contents := ll.Contents + [data];
    ll.Nodes := nodes + [newNode];
    ll.Repr := ll.Repr + {newNode};
    forall j | 0 <= j < |ll.Nodes| - 1
      ensures ll.Nodes[j].next == ll.Nodes[j + 1]
    {
      if j < |nodes| - 1 {
        assert nodes[j] != nodes[|nodes| - 1];
        assert old(nodes[j].next) == nodes[j + 1];
      }
    }
    ok := true;
  }

  /** linked_list_insert: for `index <= |Contents|` the new value ends up at
      position `index`; past the end, on a null list or when allocation fails
      the call reports false and the contents stay as they were. */
  method Insert(ll: LinkedList?, index: nat, data: u32, alloc: bool) returns (ok: bool)
    requires ll != null ==> ll.Valid()
    modifies if ll != null then ll.Repr else {}
    ensures ok <==> ll != null && alloc && index <= |old(ll.Contents)|
    ensures ll != null ==> ll.Valid() && fresh(ll.Repr - old(ll.Repr))
    ensures ll != null ==> ll.Contents == if ok then InsertAt(old(ll.Contents), index, data) else old(ll.Contents)
    ensures ll != null && !ok ==> unchanged(old(ll.Repr))
  {
    if ll == null {
      return false;
    }
    if !alloc {
      return false;
    }
    var newNode := new Node(data, null);
    if index == 0 {
      newNode.next := ll.head;
      ll.head := newNode;
      ll.Contents := [data] + ll.Contents;
      ll.Nodes := [newNode] + ll.Nodes;
      ll.Repr := ll.Repr + {newNode};
      InsertAtEnds(old(ll.Contents), data);
      return true;
    }
    var curr := ll.head;
    var i := 0;
    while curr != null && i < index - 1
      invariant ll.Valid() && i <= index - 1 && i <= |ll.Nodes|
      invariant curr == if i < |ll.Nodes| then ll.Nodes[i] else null
      modifies {}
      decreases index - 1 - i
    {
      curr := curr.next;
      i := i + 1;
    }
    if curr == null {
      // Position index - 1 does not exist: index is past the end. The source
      // leaks the new node here; the list is untouched.
      return false;
    }
    ghost var nodes := ll.Nodes;
    ll.NextAt(index - 1);
    newNode.next := curr.next;
    curr.next := newNode;
    ll.Contents := InsertAt(ll.Contents, index, data);
    ll.Nodes := nodes[..index] + [newNode] + nodes[index..];
    ll.Repr := ll.Repr + {newNode};
    forall j | 0 <= j < |nodes| - 1 && j != index - 1
      ensures nodes[j].next == nodes[j + 1]
    {
      assert nodes[j] != curr;
      assert old(nodes[j].next) == nodes[j + 1];
    }
    if index < |nodes| {
      assert nodes[|nodes| - 1] != curr;
    }
    LinkInValid(ll, nodes, old(ll.Contents), index, newNode);
    ok := true;
  }

  /** linked_list_insert_front: the new value becomes position 0 and every
      old value moves up one place. */
  method InsertFront(ll: LinkedList?, data: u32, alloc: bool) returns (ok: bool)
    requires ll != null ==> ll.Valid()
    modifies ll
    ensures ok <==> ll != null && alloc
    ensures ll != null ==> ll.Valid() && fresh(ll.Repr - old(ll.Repr))
    ensures ll != null ==> ll.Contents == if ok then [data] + old(ll.Contents) else old(ll.Contents)
    ensures ll != null && !ok ==> unchanged(ll)
  {
    if ll == null {
      return false;
    }
    if !alloc {
      return false;
    }
    var newNode := new Node(data, ll.head);
    ll.head := newNode;
    ll.Contents := [data] + ll.Contents;
    ll.Nodes := [newNode] + ll.Nodes;
    ll.Repr := ll.Repr + {newNode};
    ok := true;
  }

  /** linked_list_find: the first position holding `data`, SIZE_MAX when no
      position does or the list is null. Per its documentation; on a miss
      linked_list.c returns the length it scanned (see ListSpec.Scan). */
  method Find(ll: LinkedList?, data: u32) returns (r: nat)
    requires ll != null ==> ll.Valid()
    ensures ll == null ==> r == SIZE_MAX
    ensures ll != null ==> r == IndexOf(ll.Contents, data)
  {
    if ll == null {
      return SIZE_MAX;
    }
    var curr := ll.head;
    var index := 0;
    while curr != null
      invariant ll.Valid() && index <= |ll.Nodes|
      invariant curr == if index < |ll.Nodes| then ll.Nodes[index] else null
      invariant data !in ll.Contents[..index]
      decreases |ll.Nodes| - index
    {
      if curr.data == data {
        return index;
      }
      curr := curr.next;
      index := index + 1;
    }
    assert ll.Contents[..index] == ll.Contents;
    r := SIZE_MAX;
  }

  /** linked_list_remove: for `index < |Contents|` unlinks the node there and
      hands it to `free_fptr` (`released`); on a null or empty list, or past the
      end, reports false and changes nothing. */
  method Remove(ll: LinkedList?, index: nat) returns (ok: bool, ghost released: seq<Node>)
    requires ll != null ==> ll.Valid()
    modifies if ll != null then ll.Repr else {}
    ensures ok <==> ll != null && index < |old(ll.Contents)|
    ensures ll != null ==> ll.Valid() && ll.Repr <= old(ll.Repr)
    ensures ll != null ==> ll.Contents == if ok then RemoveAt(old(ll.Contents), index) else old(ll.Contents)
    ensures released == if ok then [old(ll.Nodes[index])] else []
    ensures ok ==> released[0] !in ll.Repr
    ensures ll != null && !ok ==> unchanged(old(ll.Repr))
  {
    if ll == null || ll.head == null {
      return false, [];
    }
    ghost var nodes := ll.Nodes;
    if index == 0 {
      var toDelete := ll.head;
      ll.NextAt(0);
      ll.head := ll.head.next;
      ll.Contents := RemoveAt(ll.Contents, 0);
      ll.Nodes := nodes[..0] + nodes[1..];
      ll.Repr := ll.Repr - {toDelete};
      UnlinkValid(ll, nodes, old(ll.Contents), 0);
      return true, [toDelete];
    }
    var prev := ll.head;
    var i := 0;
    while i < index - 1
      invariant ll.Valid() && i <= index - 1 && i < |ll.Nodes|
      invariant prev == ll.Nodes[i]
      modifies {}
    {
      ll.NextAt(i);
      if prev.next == null {
        return false, [];
      }
      prev := prev.next;
      i := i + 1;
    }
    ll.NextAt(i);
    var toDelete := prev.next;
    if toDelete == null {
      return false, [];
    }
    ll.NextAt(index);
    prev.next := toDelete.next;
    ll.Contents := RemoveAt(ll.Contents, index);
    ll.Nodes := nodes[..index] + nodes[index + 1..];
    ll.Repr := ll.Repr - {toDelete};
    forall j | 0 <= j < |nodes| - 1 && j != index - 1
      ensures nodes[j].next == nodes[j + 1]
    {
      assert nodes[j] != prev;
      assert old(nodes[j].next) == nodes[j + 1];
    }
    if index + 1 < |nodes| {
      assert nodes[|nodes| - 1] != prev;
    }
    UnlinkValid(ll, nodes, old(ll.Contents), index);
    ok, released := true, [toDelete];
  }

  /** linked_list_create_iterator: an iterator at position `index`, holding
      that position's value. Null on a null list, when `index` is past the
      end, or when allocation fails; linked_list.c checks none of these
      (see AsWritten.CreateIteratorAsWritten). */
  method CreateIterator(ll: LinkedList?, index: nat, alloc: bool) returns (it: Iterator?)
    requires ll != null ==> ll.Valid()
    ensures it == null <==> ll == null || index >= |ll.Contents| || !alloc
    ensures it != null ==> fresh(it) && it.Valid() && it.list == ll
    ensures it != null ==> it.currentIndex == index && it.data == ll.Contents[index]
  {
    if ll == null {
      return null;
    }
    var nodePtr := ll.head;
    var i := 0;
    while i < index && nodePtr != null
      invariant ll.Valid() && i <= index && i <= |ll.Nodes|
      invariant nodePtr == if i < |ll.Nodes| then ll.Nodes[i] else null
      decreases index - i
    {
      nodePtr := nodePtr.next;
      i := i + 1;
    }
    if nodePtr == null {
      return null;
    }
    if !alloc {
      return null;
    }
    it := new Iterator(ll, nodePtr, index, nodePtr.data);
  }

  /** linked_list_delete_iterator: false on null, true otherwise; the list is
      not touched (nothing is in this method's frame). */
  method DeleteIterator(it: Iterator?) returns (ok: bool)
    ensures ok <==> it != null
  {
    if it == null {
      return false;
    }
    ok := true;
  }

  /** linked_list_iterate: moves to the next position and reports true when
      there is one; at the tail, or on null, reports false and changes nothing,
      so further calls keep reporting false. */
  method Iterate(it: Iterator?) returns (ok: bool)
    requires it != null ==> it.Valid()
    modifies it
    ensures ok <==> it != null && old(it.currentIndex) + 1 < |it.list.Contents|
    ensures it != null ==> it.Valid() && it.list == old(it.list)
    ensures ok ==> it.currentIndex == old(it.currentIndex) + 1 && it.data == it.list.Contents[it.currentIndex]
    ensures it != null && !ok ==> unchanged(it)
  {
    if it != null {
      it.list.NextAt(it.currentIndex);
    }
    if it == null || it.currentNode == null || it.currentNode.next == null {
      return false;
    }
    // linked_list.c re-checks `current_node` for null here; it was just set to a
    // non-null successor, so only the success branch is reachable.
    it.currentNode := it.currentNode.next;
    it.currentIndex := it.currentIndex + 1;
    it.data := it.currentNode.data;
    ok := true;
  }

  /** An iterator created at position 0 of a non-empty list yields every value
      in order: exactly `|Contents| - 1` calls to Iterate succeed, and once one
      fails every further call fails too. */
  method IteratorWalk(ll: LinkedList, alloc: bool) returns (advances: nat, seen: seq<u32>, again: bool)
    requires ll.Valid() && ll.Contents != []
    ensures alloc ==> advances == |ll.Contents| - 1 && seen == ll.Contents && !again
    ensures !alloc ==> advances == 0 && seen == [] && !again
  {
    var it := CreateIterator(ll, 0, alloc);
    if it == null {
      return 0, [], false;
    }
    advances, seen := 0, [it.data];
    while true
      invariant it.Valid() && it.list == ll
      invariant it.currentIndex == advances
      invariant seen == ll.Contents[..advances + 1]
      decreases |ll.Contents| - advances
    {
      var more := Iterate(it);
      if !more {
        break;
      }
      advances := advances + 1;
      seen := seen + [it.data];
    }
    again := Iterate(it);
  }

  /** Linking `n` in at position `k` of the chain `nodes` (values `c`), with
      every other link as it was, gives a valid list. */
  lemma LinkInValid(ll: LinkedList, nodes: seq<Node>, c: seq<u32>, k: nat, n: Node)
    requires k <= |nodes| == |c|
    requires ll.Nodes == nodes[..k] + [n] + nodes[k..] && ll.Contents == InsertAt(c, k, n.data)
    requires ll in ll.Repr && n in ll.Repr && forall j | 0 <= j < |nodes| :: nodes[j] in ll.Repr
    requires ll.head == if k == 0 then n else nodes[0]
    requires forall j | 0 <= j < |nodes| :: nodes[j].data == c[j]
    requires forall j | 0 <= j < |nodes| - 1 && j != k - 1 :: nodes[j].next == nodes[j + 1]
    requires 0 < k ==> nodes[k - 1].next == n
    requires n.next == if k < |nodes| then nodes[k] else null
    requires k < |nodes| ==> nodes[|nodes| - 1].next == null
    requires forall i, j | 0 <= i < j < |nodes| :: nodes[i] != nodes[j]
    requires n !in nodes
    ensures ll.Valid()
  {
  }

  /** Unlinking position `k` of the chain `nodes` (values `c`), with every
      other link as it was, gives a valid list. */
  lemma UnlinkValid(ll: LinkedList, nodes: seq<Node>, c: seq<u32>, k: nat)
    requires k < |nodes| == |c|
    requires ll.Nodes == nodes[..k] + nodes[k + 1..] && ll.Contents == RemoveAt(c, k)
    requires ll in ll.Repr && forall j | 0 <= j < |nodes| && j != k :: nodes[j] in ll.Repr
    requires ll.head == if |nodes| == 1 then null else if k == 0 then nodes[1] else nodes[0]
    requires forall j | 0 <= j < |nodes| :: nodes[j].data == c[j]
    requires forall j | 0 <= j < |nodes| - 1 && j != k - 1 :: nodes[j].next == nodes[j + 1]
    requires 0 < k ==> nodes[k - 1].next == if k + 1 < |nodes| then nodes[k + 1] else null
    requires k + 1 < |nodes| ==> nodes[|nodes| - 1].next == null
    requires forall i, j | 0 <= i < j < |nodes| :: nodes[i] != nodes[j]
    ensures ll.Valid()
  {
  }
}
