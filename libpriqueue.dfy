/**
 * The ordered waiting queue of the scheduler (libpriqueue).
 *
 * The C queue is a singly linked list of nodes, each holding one `void *`
 * element, with a node count `msize` and a comparer fixed by `priqueue_init`.
 * Here the chain of values reached from `mfront` through `mnext` is the
 * sequence `items`; element equality stands for pointer identity.
 */
module LibPriQueue {
  import opened Wrappers

  // ---------------------------------------------------------------------------
  // Specification of ordered insertion
  // ---------------------------------------------------------------------------

  /** The position `priqueue_offer` picks for `x`: the first element that `x`
      compares strictly below, or the end of the queue when there is none. */
  function FirstBelow<T>(cmp: (T, T) -> int, x: T, s: seq<T>): (i: nat)
    ensures i <= |s|
    ensures forall k :: 0 <= k < i ==> cmp(x, s[k]) >= 0
    ensures i < |s| ==> cmp(x, s[i]) < 0
  {
    if s == [] then 0
    else if cmp(x, s[0]) < 0 then 0
    else 1 + FirstBelow(cmp, x, s[1..])
  }

  /** The postcondition of FirstBelow pins the position down: any position
      with the same two properties is that position, and inserting there is
      what Inserted does.  This connects PriQueue.Offer to Inserted. */
  lemma FirstBelowUnique<T>(cmp: (T, T) -> int, x: T, s: seq<T>, i: nat)
    requires i <= |s|
    requires forall k :: 0 <= k < i ==> cmp(x, s[k]) >= 0
    requires i < |s| ==> cmp(x, s[i]) < 0
    ensures i == FirstBelow(cmp, x, s)
    ensures Inserted(cmp, s, x) == s[..i] + [x] + s[i..]
  {
  }

  /** The queue after `priqueue_offer(x)`: `x` is placed at FirstBelow and
      every other element keeps its relative order. */
  function Inserted<T>(cmp: (T, T) -> int, s: seq<T>, x: T): (r: seq<T>)
    ensures |r| == |s| + 1
    ensures r[FirstBelow(cmp, x, s)] == x
    ensures multiset(r) == multiset(s) + multiset{x}
  {
    var i := FirstBelow(cmp, x, s);
    assert s == s[..i] + s[i..];
    s[..i] + [x] + s[i..]
  }

  /** Taking the offered element back out of its position gives the old
      queue: every other element keeps its relative order. */
  lemma InsertedKeepsOthersInOrder<T>(cmp: (T, T) -> int, s: seq<T>, x: T)
    ensures var i := FirstBelow(cmp, x, s);
      Inserted(cmp, s, x)[..i] + Inserted(cmp, s, x)[i + 1..] == s
  {
    CutOut(s, x, FirstBelow(cmp, x, s));
  }

  lemma CutOut<T>(s: seq<T>, x: T, i: nat)
    requires i <= |s|
    ensures var r := s[..i] + [x] + s[i..]; r[..i] + r[i + 1..] == s
  {
    var r := s[..i] + [x] + s[i..];
    assert r[..i] == s[..i];
    assert r[i + 1..] == s[i..];
    assert s == s[..i] + s[i..];
  }

  /** What the sliding loop of `priqueue_offer` leaves: the values from
      position `i` on moved one place down, `x` at `i`, and the old last
      value carried in `last` to the new tail node. */
  lemma SlidDown<T>(s: seq<T>, slid: seq<T>, i: nat, x: T, last: T)
    requires i <= |s| == |slid|
    requires forall k :: 0 <= k < i ==> slid[k] == s[k]
    requires i < |s| ==> slid[i] == x
    requires forall k :: i < k < |s| ==> slid[k] == s[k - 1]
    requires last == if i == |s| then x else s[|s| - 1]
    ensures slid + [last] == s[..i] + [x] + s[i..]
  {
  }

  /** The queue after offering each of `xs` in turn. */
  function OfferedAll<T>(cmp: (T, T) -> int, s: seq<T>, xs: seq<T>): seq<T>
    decreases |xs|
  {
    if xs == [] then s else OfferedAll(cmp, Inserted(cmp, s, xs[0]), xs[1..])
  }

  // ---------------------------------------------------------------------------
  // Specification of identity-based removal
  // ---------------------------------------------------------------------------

  /** The queue after `priqueue_remove(x)`: every element identical to `x` is
      dropped and the survivors stay in their order. */
  function Without<T(==)>(s: seq<T>, x: T): (r: seq<T>)
    ensures x !in r
    ensures |r| <= |s|
  {
    if s == [] then []
    else if s[0] == x then Without(s[1..], x)
      else [s[0]] + Without(s[1..], x)
  }

  /** How many elements of `s` are identical to `x`. */
  function Occurrences<T(==)>(s: seq<T>, x: T): nat
  {
    if s == [] then 0
    else (if s[0] == x then 1 else 0) + Occurrences(s[1..], x)
  }

  /** Removal drops exactly the occurrences of `x`, and nothing else. */
  lemma {:induction false} WithoutCounts<T>(s: seq<T>, x: T)
    ensures multiset(Without(s, x)) == multiset(s)[x := 0]
    ensures |Without(s, x)| == |s| - Occurrences(s, x)
    ensures Occurrences(s, x) == multiset(s)[x]
  {
    if s != [] {
      WithoutCounts(s[1..], x);
      assert s == [s[0]] + s[1..];
    }
  }

  lemma {:induction false} WithoutConcat<T>(a: seq<T>, b: seq<T>, x: T)
    ensures Without(a + b, x) == Without(a, x) + Without(b, x)
  {
    if a == [] {
      assert a + b == b;
    } else {
      assert (a + b)[1..] == a[1..] + b;
      WithoutConcat(a[1..], b, x);
    }
  }

  /** Removing an element that does not occur changes nothing. */
  lemma {:induction false} WithoutAbsent<T>(s: seq<T>, x: T)
    requires x !in s
    ensures Without(s, x) == s
  {
    if s != [] {
      WithoutAbsent(s[1..], x);
    }
  }

  /** Unlinking one match in the middle does not change what removal leaves. */
  lemma WithoutSkip<T>(a: seq<T>, b: seq<T>, x: T)
    ensures Without(a + [x] + b, x) == Without(a + b, x)
  {
    WithoutConcat(a + [x], b, x);
    WithoutConcat(a, [x], x);
    WithoutConcat(a, b, x);
  }

  // ---------------------------------------------------------------------------
  // Orderings
  // ---------------------------------------------------------------------------

  /** A comparer whose sign behaves like a total preorder: swapping the
      arguments flips the sign, and "not after" is transitive. */
  ghost predicate TotalPreorder<T(!new)>(cmp: (T, T) -> int)
  {
    && (forall a, b :: cmp(a, b) < 0 <==> cmp(b, a) > 0)
    && (forall a, b, c {:trigger cmp(a, b), cmp(b, c), cmp(a, c)} ::
          cmp(a, b) <= 0 && cmp(b, c) <= 0 ==> cmp(a, c) <= 0)
  }

  /** No element compares strictly after one that follows it. */
  ghost predicate Sorted<T>(cmp: (T, T) -> int, s: seq<T>)
  {
    forall i, j :: 0 <= i < j < |s| ==> cmp(s[i], s[j]) <= 0
  }

  /** Position by position, the queue after an offer. */
  lemma InsertedAt<T>(cmp: (T, T) -> int, s: seq<T>, x: T, k: nat)
    requires k <= |s|
    ensures var i := FirstBelow(cmp, x, s);
      Inserted(cmp, s, x)[k] == if k < i then s[k] else if k == i then x else s[k - 1]
  {
  }

  /** Offering into a sorted queue under a total preorder keeps it sorted. */
  lemma OfferKeepsSorted<T(!new)>(cmp: (T, T) -> int, s: seq<T>, x: T)
    requires TotalPreorder(cmp)
    requires Sorted(cmp, s)
    ensures Sorted(cmp, Inserted(cmp, s, x))
  {
    var i := FirstBelow(cmp, x, s);
    var r := Inserted(cmp, s, x);
    forall p, q | 0 <= p < q < |r|
      ensures cmp(r[p], r[q]) <= 0
    {
      InsertedAt(cmp, s, x, p);
      InsertedAt(cmp, s, x, q);
      if q < i || p > i {
      } else if p == i {
        OfferIsStable(cmp, s, x, q - 1);
      } else if q == i {
        OfferIsStable(cmp, s, x, p);
      } else {
        OfferIsStable(cmp, s, x, p);
        OfferIsStable(cmp, s, x, q - 1);
        assert cmp(s[p], x) <= 0 && cmp(x, s[q - 1]) <= 0;
      }
    }
  }

  /** Stability: in a sorted queue under a total preorder, the new element
      lands after exactly those elements it does not compare strictly below,
      so it follows every element it ties with. */
  lemma OfferIsStable<T(!new)>(cmp: (T, T) -> int, s: seq<T>, x: T, k: nat)
    requires TotalPreorder(cmp)
    requires Sorted(cmp, s)
    requires k < |s|
    ensures k < FirstBelow(cmp, x, s) <==> cmp(x, s[k]) >= 0
  {
    var i := FirstBelow(cmp, x, s);
    if i <= k {
      assert cmp(x, s[i]) < 0;
      assert i == k || cmp(s[i], s[k]) <= 0;
    }
  }

  /** A whole run of offers under a total preorder leaves a sorted queue. */
  lemma {:induction false} OfferedAllSorted<T(!new)>(cmp: (T, T) -> int, s: seq<T>, xs: seq<T>)
    requires TotalPreorder(cmp)
    requires Sorted(cmp, s)
    ensures Sorted(cmp, OfferedAll(cmp, s, xs))
    ensures multiset(OfferedAll(cmp, s, xs)) == multiset(s) + multiset(xs)
    decreases |xs|
  {
    if xs != [] {
      OfferKeepsSorted(cmp, s, xs[0]);
      OfferedAllSorted(cmp, Inserted(cmp, s, xs[0]), xs[1..]);
      assert xs == [xs[0]] + xs[1..];
    }
  }

  /** Removal never consults the comparer, yet it keeps a sorted queue
      sorted, whatever the comparer. */
  lemma {:induction false} RemoveKeepsSorted<T>(cmp: (T, T) -> int, s: seq<T>, x: T)
    requires Sorted(cmp, s)
    ensures Sorted(cmp, Without(s, x))
  {
    if s != [] {
      assert Sorted(cmp, s[1..]) by {
        forall i, j | 0 <= i < j < |s| - 1 ensures cmp(s[1..][i], s[1..][j]) <= 0 {
          assert s[1..][i] == s[i + 1] && s[1..][j] == s[j + 1];
        }
      }
      RemoveKeepsSorted(cmp, s[1..], x);
      var w := Without(s[1..], x);
      if s[0] != x {
        forall j | 0 <= j < |w| ensures cmp(s[0], w[j]) <= 0 {
          WithoutCounts(s[1..], x);
          assert w[j] in multiset(w);
          assert w[j] in s[1..];
          var k :| 0 <= k < |s[1..]| && s[1..][k] == w[j];
          assert s[k + 1] == w[j];
        }
        var r := [s[0]] + w;
        forall i, j | 0 <= i < j < |r| ensures cmp(r[i], r[j]) <= 0 {
          if i == 0 {
            assert r[j] == w[j - 1];
          } else {
            assert r[i] == w[i - 1] && r[j] == w[j - 1];
          }
        }
      }
    }
  }

  // ---------------------------------------------------------------------------
  // The queue itself
  // ---------------------------------------------------------------------------

  class PriQueue<T(==)> {
    /** msize: the number of nodes in the chain. */
    var size: int
    /** The comparer chosen by `priqueue_init`; never changed afterwards. */
    const comparer: (T, T) -> int
    /** The values along the chain from mfront, front first. */
    var items: seq<T>

    ghost predicate Valid()
      reads this
    {
      size == |items|
    }

    /** priqueue_init: an empty queue ordered by `cmp`. */
    constructor Init(cmp: (T, T) -> int)
      ensures Valid()
      ensures size == 0 && items == []
      ensures comparer == cmp
    {
      size := 0;
      comparer := cmp;
      items := [];
    }

    /** priqueue_offer: stable ordered insertion; returns where `ptr` landed. */
    method Offer(ptr: T) returns (index: int)
      requires Valid()
      modifies this
      ensures Valid()
      ensures 0 <= index <= old(size)
      ensures forall k :: 0 <= k < index ==> comparer(ptr, old(items)[k]) >= 0
      ensures index < old(size) ==> comparer(ptr, old(items)[index]) < 0
      ensures items == old(items)[..index] + [ptr] + old(items)[index..]
      ensures size == old(size) + 1
    {
      if size == 0 {
        items := [ptr];
        size := size + 1;
        return 0;
      }
      // `chain` is the list of values as the loops below rewrite it.
      var chain := items;
      // Walk from the front until ptr compares strictly below the current value.
      index := 0;
      while index < |chain| && comparer(ptr, chain[index]) >= 0
        invariant 0 <= index <= |chain|
        invariant forall k :: 0 <= k < index ==> comparer(ptr, chain[k]) >= 0
      {
        index := index + 1;
      }
      // Slide the values down from there, carrying the displaced one along;
      // when nothing compared above ptr, this moves nothing.
      ghost var s := chain;
      var temp := ptr;
      var current := index;
      while current < |chain|
        invariant index <= current <= |chain| == |s|
        invariant forall k :: 0 <= k < index ==> chain[k] == s[k]
        invariant current > index ==> chain[index] == ptr
        invariant forall k :: index < k < current ==> chain[k] == s[k - 1]
        invariant forall k :: current <= k < |s| ==> chain[k] == s[k]
        invariant temp == if current == index then ptr else s[current - 1]
      {
        var slide := chain[current];
        chain := chain[current := temp];
        temp := slide;
        current := current + 1;
      }
      // The new node, now carrying the last value, is linked after the tail.
      SlidDown(s, chain, index, ptr, temp);
      items := chain + [temp];
      size := size + 1;
    }

    /** priqueue_peek, as its documentation describes it: the head element,
        or None (NULL) when the queue is empty; nothing changes. */
    method Peek() returns (r: Option<T>)
      requires Valid()
      ensures r.None? <==> items == []
      ensures r.Some? ==> r.value == items[0]
    {
      if size != 0 {
        r := Some(items[0]);
      } else {
        r := None;
      }
    }

    /** priqueue_poll: removes and returns the head, or None on an empty queue. */
    method Poll() returns (r: Option<T>)
      requires Valid()
      modifies this
      ensures Valid()
      ensures old(items) == [] ==> r == None && items == [] && size == 0
      ensures old(items) != [] ==>
        r == Some(old(items)[0]) && items == old(items)[1..] && size == old(size) - 1
    {
      if size > 0 {
        r := Some(items[0]);
        items := items[1..];
        size := size - 1;
      } else {
        r := None;
      }
    }

    /** priqueue_at: the element at position `index`, None when out of range. */
    method At(index: int) returns (r: Option<T>)
      requires Valid()
      ensures r.Some? <==> 0 <= index < |items|
      ensures r.Some? ==> r.value == items[index]
    {
      if index >= 0 {
        var i := 0;
        while i < |items|
          invariant 0 <= i <= |items|
          invariant i <= index
        {
          if i == index {
            return Some(items[i]);
          }
          i := i + 1;
        }
      }
      return None;
    }

    /** priqueue_remove: drops every element identical to `ptr` without
        consulting the comparer, and returns how many it dropped. */
    method Remove(ptr: T) returns (count: int)
      requires Valid()
      modifies this
      ensures Valid()
      ensures items == Without(old(items), ptr)
      ensures count == old(size) - size == Occurrences(old(items), ptr)
    {
      if size == 0 {
        return 0;
      }
      ghost var s := items;
      count := 0;
      // Matches at the front move mfront forward.
      while |items| > 0 && items[0] == ptr
        invariant Valid()
        invariant Without(items, ptr) == Without(s, ptr)
        invariant count == |s| - |items|
      {
        assert items == [] + [ptr] + items[1..];
        WithoutSkip([], items[1..], ptr);
        items := items[1..];
        size := size - 1;
        count := count + 1;
      }
      // The rest: `current` walks on, `prev` is the position just before it.
      var current := 0;
      while current < |items|
        invariant 0 <= current <= |items|
        invariant Valid()
        invariant ptr !in items[..current]
        invariant Without(items, ptr) == Without(s, ptr)
        invariant count == |s| - |items|
        decreases |items| - current
      {
        while current < |items| && items[current] != ptr
          invariant 0 <= current <= |items|
          invariant ptr !in items[..current]
        {
          assert items[..current + 1] == items[..current] + [items[current]];
          current := current + 1;
        }
        if current == |items| {
          break;
        }
        // Bridge prev to the node after the match.
        var before, rest := items[..current], items[current + 1..];
        assert items == before + [ptr] + rest;
        WithoutSkip(before, rest, ptr);
        items := before + rest;
        assert items[..current] == before;
        size := size - 1;
        count := count + 1;
      }
      assert items[..current] == items;
      WithoutAbsent(items, ptr);
      assert count == Occurrences(s, ptr) by {
        WithoutCounts(s, ptr);
      }
    }

    /** priqueue_remove_at, as its documentation describes it: removes and
        returns the element at `index`, closing the gap; None and no change
        when there is no such element. */
    method RemoveAt(index: int) returns (r: Option<T>)
      requires Valid()
      modifies this
      ensures Valid()
      ensures 0 <= index < |old(items)| ==>
        r == Some(old(items)[index]) && items == old(items)[..index] + old(items)[index + 1..]
      ensures !(0 <= index < |old(items)|) ==> r == None && items == old(items)
    {
      r := None;
      if size > 0 {
        var found := At(index);
        if found.Some? {
          r := found;
          items := items[..index] + items[index + 1..];
          size := size - 1;
        }
      }
    }

    /** priqueue_size: the number of queued elements. */
    method Size() returns (n: int)
      requires Valid()
      ensures n == |items|
    {
      n := size;
    }
  }
}
