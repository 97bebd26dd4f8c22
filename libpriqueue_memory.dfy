/**
 * `priqueue_peek` and `priqueue_remove_at` as the C code is written, at the
 * level of addresses.  Both mix up a node (`node_t *`) with the element it
 * stores (`void *`), which a typed model of the queue cannot express, so this
 * module looks at the queue as the addresses it consists of.
 *
 * The corrected behaviour, the one their documentation describes, is
 * `LibPriQueue.PriQueue.Peek` and `LibPriQueue.PriQueue.RemoveAt`.
 */
module LibPriQueueMemory {

  /** A C pointer: 0 is NULL, any other value the address of an allocation. */
  type Addr = nat

  const Null: Addr := 0

  /** A queue in memory: `nodes` are the addresses of the node_t cells reached
      from mfront through mnext, `values[i]` the mvalue of `nodes[i]`, and
      `size` the msize field.  The mback field is set to NULL by
      `priqueue_init` and assigned nowhere else on any reachable path (its
      one other assignment, in priqueue_remove_at, is in a dead branch). */
  datatype Layout = Layout(size: int, nodes: seq<Addr>, values: seq<Addr>)

  /** A queue built by priqueue_offer from non-NULL elements: every node is a
      separate allocation, distinct from every element it stores. */
  predicate WellFormed(l: Layout)
  {
    && |l.nodes| == |l.values| == l.size
    && (forall i :: 0 <= i < |l.nodes| ==> l.nodes[i] != Null && l.values[i] != Null)
    && (forall i, j :: 0 <= i < j < |l.nodes| ==> l.nodes[i] != l.nodes[j])
    && (forall i, j :: 0 <= i < |l.nodes| && 0 <= j < |l.values| ==> l.nodes[i] != l.values[j])
  }

  /** mfront */
  function Front(l: Layout): Addr
  {
    if l.nodes == [] then Null else l.nodes[0]
  }

  /** priqueue_at: the element stored at position `index`, or NULL. */
  function ElementAt(l: Layout, index: int): (r: Addr)
    ensures !(0 <= index < |l.values|) ==> r == Null
    ensures 0 <= index < |l.values| ==> r == l.values[index]
    ensures r == Null || r in l.values
  {
    if 0 <= index < |l.values| then l.values[index] else Null
  }

  /** priqueue_peek as written: it returns mfront itself, not mfront's value. */
  function PeekAsWritten(l: Layout): (r: Addr)
    ensures l.size == 0 ==> r == Null
    ensures r == Null || r in l.nodes
  {
    if l.size != 0 then Front(l) else Null
  }

  /** A non-empty queue's peek yields the front node's address, which is not
      any element of the queue. */
  lemma PeekReturnsNodeNotElement(l: Layout)
    requires WellFormed(l) && l.size > 0
    ensures PeekAsWritten(l) == l.nodes[0]
    ensures PeekAsWritten(l) !in l.values
  {
  }

  /** What one call of priqueue_remove_at does to the queue. */
  datatype RemoveAtEffect =
    | ReturnsNull
      /** `prev->mnext = next` is executed with `prev` NULL. */
    | NullDereference
      /** msize becomes `size`, the chain from mfront is `nodes`, `freed` is
          passed to free, and when `writtenAt` is not NULL the word at its
          mnext offset is overwritten. */
    | Removed(size: int, nodes: seq<Addr>, freed: Addr, writtenAt: Addr)

  /** priqueue_remove_at as written.  `temp` receives the element that
      priqueue_at returns and is then treated as a node.  The two branches
      that compare `temp` with mback are left out: mback is always NULL and
      `temp` never is, so they cannot run (the first of them would only have
      compared mfront and mback with NULL instead of assigning them). */
  function RemoveAtAsWritten(l: Layout, index: int): (e: RemoveAtEffect)
    ensures l.size <= 0 || !(0 <= index < |l.values|) ==> e == ReturnsNull
    ensures e.Removed? ==> e.size == l.size - 1
    ensures e.Removed? ==> e.freed != Null && e.freed == ElementAt(l, index)
    ensures e.Removed? && e.writtenAt != Null ==> e.writtenAt == ElementAt(l, index - 1)
  {
    if l.size > 0 && ElementAt(l, index) != Null then
      var temp := ElementAt(l, index);
      if temp == Front(l) then
        Removed(l.size - 1, l.nodes[1..], temp, Null)
      else
        var prev := ElementAt(l, index - 1);
        if prev == Null then NullDereference
        else Removed(l.size - 1, l.nodes, temp, prev)
    else
      ReturnsNull
  }

  /** Removing the head of a well-formed queue dereferences NULL: the front
      test compares an element with a node and fails, and the element before
      position 0 is NULL. */
  lemma RemoveHeadDereferencesNull(l: Layout)
    requires WellFormed(l) && l.size > 0
    ensures RemoveAtAsWritten(l, 0) == NullDereference
  {
    assert ElementAt(l, 0) == l.values[0] != l.nodes[0];
  }

  /** Removing any later position of a well-formed queue leaves every node
      in the chain while msize drops by one, writes into the previous element
      instead of the previous node, and frees an element that is still linked. */
  lemma RemoveLaterCorruptsQueue(l: Layout, index: int)
    requires WellFormed(l) && 1 <= index < l.size
    ensures RemoveAtAsWritten(l, index).Removed?
    ensures RemoveAtAsWritten(l, index).nodes == l.nodes
    ensures RemoveAtAsWritten(l, index).size == |l.nodes| - 1
    ensures RemoveAtAsWritten(l, index).writtenAt == l.values[index - 1]
    ensures RemoveAtAsWritten(l, index).writtenAt !in l.nodes
    ensures RemoveAtAsWritten(l, index).freed == l.values[index]
  {
    assert ElementAt(l, index) == l.values[index] != l.nodes[0];
  }

  /** Out-of-range positions and the empty queue are handled as documented. */
  lemma RemoveOutOfRangeReturnsNull(l: Layout, index: int)
    requires WellFormed(l)
    requires !(0 <= index < l.size)
    ensures RemoveAtAsWritten(l, index) == ReturnsNull
  {
  }
}
