/** The abstract view of a linked_list: the sequence of its values, head first.
    Every operation of the heap model in LinkedLists is specified by the
    functions here, and the laws relating them are proved here once. */
module ListSpec {

  /** An `unsigned int` element, 32 bits wide. */
  type u32 = x: int | 0 <= x < 0x1_0000_0000

  /** `SIZE_MAX` of a 64-bit `size_t`: the sentinel for "no list" and "not found". */
  const SIZE_MAX: nat := 0xFFFF_FFFF_FFFF_FFFF

  datatype Option<T> = None | Some(value: T)

  /** The contents after placing `x` so that it occupies position `i`. */
  function InsertAt(s: seq<u32>, i: nat, x: u32): seq<u32>
    requires i <= |s|
  {
    s[..i] + [x] + s[i..]
  }

  /** The contents after unlinking the element at position `i`. */
  function RemoveAt(s: seq<u32>, i: nat): seq<u32>
    requires i < |s|
  {
    s[..i] + s[i + 1..]
  }

  /** The value of the scan in linked_list_find: the number of elements passed
      before the first one equal to `x`, which is `|s|` when there is none. */
  function Scan(s: seq<u32>, x: u32): (r: nat)
    ensures r <= |s|
    ensures r < |s| <==> x in s
    ensures r < |s| ==> s[r] == x
    ensures forall j :: 0 <= j < r ==> s[j] != x
  {
    if s == [] then 0
    else if s[0] == x then 0
    else 1 + Scan(s[1..], x)
  }

  /** The documented result of linked_list_find on a list: the first position
      holding `x`, or `SIZE_MAX` when no position does. */
  function IndexOf(s: seq<u32>, x: u32): (r: nat)
    ensures x in s ==> r < |s| && s[r] == x && forall j :: 0 <= j < r ==> s[j] != x
    ensures x !in s ==> r == SIZE_MAX
  {
    if Scan(s, x) < |s| then Scan(s, x) else SIZE_MAX
  }

  /** Inserting at position `i` leaves positions before `i` alone, puts `x` at `i`
      and shifts every later element up by one. */
  lemma InsertAtPositions(s: seq<u32>, i: nat, x: u32)
    requires i <= |s|
    ensures |InsertAt(s, i, x)| == |s| + 1
    ensures forall j :: 0 <= j < i ==> InsertAt(s, i, x)[j] == s[j]
    ensures InsertAt(s, i, x)[i] == x
    ensures forall j :: i < j <= |s| ==> InsertAt(s, i, x)[j] == s[j - 1]
  {
  }

  /** Inserting at position 0 is inserting at the front; at `|s|`, appending. */
  lemma InsertAtEnds(s: seq<u32>, x: u32)
    ensures InsertAt(s, 0, x) == [x] + s
    ensures InsertAt(s, |s|, x) == s + [x]
  {
  }

  /** Removing at `i` keeps positions before `i` and shifts every later one down. */
  lemma RemoveAtPositions(s: seq<u32>, i: nat)
    requires i < |s|
    ensures |RemoveAt(s, i)| == |s| - 1
    ensures forall j :: 0 <= j < i ==> RemoveAt(s, i)[j] == s[j]
    ensures forall j :: i <= j < |s| - 1 ==> RemoveAt(s, i)[j] == s[j + 1]
  {
  }

  /** Removing what was just inserted at `i` restores the exact sequence. */
  lemma RemoveInsertAt(s: seq<u32>, i: nat, x: u32)
    requires i <= |s|
    ensures RemoveAt(InsertAt(s, i, x), i) == s
  {
  }

  /** Putting a removed element back at its position restores the exact sequence. */
  lemma InsertRemoveAt(s: seq<u32>, i: nat)
    requires i < |s|
    ensures InsertAt(RemoveAt(s, i), i, s[i]) == s
  {
  }

  /** Find law: after inserting `x` at `i`, with `x` at no earlier position,
      finding `x` yields `i`. */
  lemma IndexOfInsertAt(s: seq<u32>, i: nat, x: u32)
    requires i <= |s|
    requires x !in s[..i]
    ensures IndexOf(InsertAt(s, i, x), x) == i
  {
    InsertAtPositions(s, i, x);
  }

  /** A list operation whose allocation succeeded. */
  datatype Op = AddFront(x: u32) | AddEnd(x: u32) | AddAt(index: nat, x: u32) | Unlink(index: nat)

  /** The contents after `op` and whether it reported success. */
  function Apply(s: seq<u32>, op: Op): (seq<u32>, bool)
  {
    match op
    case AddFront(x) => ([x] + s, true)
    case AddEnd(x) => (s + [x], true)
    case AddAt(i, x) => if i <= |s| then (InsertAt(s, i, x), true) else (s, false)
    case Unlink(i) => if i < |s| then (RemoveAt(s, i), true) else (s, false)
  }

  /** Runs `ops` from `s`: the final contents, the number of successful
      insertions and the number of successful removals. */
  function Run(s: seq<u32>, ops: seq<Op>): (seq<u32>, nat, nat)
    decreases |ops|
  {
    if ops == [] then (s, 0, 0)
    else
      var (t, ok) := Apply(s, ops[0]);
      var (u, ins, rem) := Run(t, ops[1..]);
      if !ok then (u, ins, rem)
      else if ops[0].Unlink? then (u, ins, rem + 1)
      else (u, ins + 1, rem)
  }

  /** Size consistency: every successful insertion adds one element and every
      successful removal takes one away, so from the empty list the size is
      the difference of the two counts. */
  lemma {:induction false} RunSize(s: seq<u32>, ops: seq<Op>)
    ensures |Run(s, ops).0| + Run(s, ops).2 == |s| + Run(s, ops).1
    decreases |ops|
  {
    if ops != [] {
      var (t, ok) := Apply(s, ops[0]);
      RunSize(t, ops[1..]);
      match ops[0]
      case AddFront(x) =>
      case AddEnd(x) =>
      case AddAt(i, x) =>
        if i <= |s| { InsertAtPositions(s, i, x); }
      case Unlink(i) =>
        if i < |s| { RemoveAtPositions(s, i); }
    }
  }
}
