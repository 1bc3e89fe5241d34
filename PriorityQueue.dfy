/**
 * The binary min-heap the worker's Dijkstra uses (class `PriorityQueue`).
 * The sift operations are first stated as functions over the sequence of
 * entries, with exactly the comparisons of the class (a rising entry stops at
 * a parent of equal priority; a sinking entry prefers the left child, and takes
 * the right one only when it is strictly smaller), and the heap facts are
 * proved about those functions.  The class keeps its entries in an array that
 * its methods update in place, and each method is proved to leave exactly the
 * sequence the function computes.
 */
module PriorityQueues {
  import opened Graph

  datatype Entry = Entry(element: NodeId, priority: int)

  function Parent(j: nat): nat
    requires j > 0
  {
    (j - 1) / 2
  }

  /** Every entry's priority is at least its parent's. */
  ghost predicate IsHeap(s: seq<Entry>) {
    forall j {:trigger Parent(j)} :: 0 < j < |s| ==> s[Parent(j)].priority <= s[j].priority
  }

  /** Exchanges the entries at `i` and `k`. */
  function Swap(s: seq<Entry>, i: nat, k: nat): (r: seq<Entry>)
    requires i < |s| && k < |s|
    ensures |r| == |s|
  {
    s[i := s[k]][k := s[i]]
  }

  /** A swap moves two entries and keeps the others and the multiset of entries. */
  lemma SwapFacts(s: seq<Entry>, i: nat, k: nat)
    requires i < |s| && k < |s|
    ensures Swap(s, i, k)[i] == s[k] && Swap(s, i, k)[k] == s[i]
    ensures forall j :: 0 <= j < |s| && j != i && j != k ==> Swap(s, i, k)[j] == s[j]
    ensures multiset(Swap(s, i, k)) == multiset(s)
  {
  }

  // ---------------------------------------------------------------- sift up

  /** `_bubbleUpFromIndex`: the entry at `i` rises while it is strictly below its parent. */
  function SiftUp(s: seq<Entry>, i: nat): seq<Entry>
    requires i < |s|
    decreases i
  {
    if i == 0 || s[i].priority >= s[Parent(i)].priority then s
    else SiftUp(Swap(s, Parent(i), i), Parent(i))
  }

  /** A heap except that the entry at `i` may be below its parent; its children are above that parent. */
  ghost predicate HeapBut(s: seq<Entry>, i: nat) {
    (forall j {:trigger Parent(j)} :: 0 < j < |s| && j != i ==> s[Parent(j)].priority <= s[j].priority) &&
    (i > 0 ==> forall j {:trigger Parent(j)} :: 0 < j < |s| && Parent(j) == i ==> s[Parent(i)].priority <= s[j].priority)
  }

  lemma {:induction false} SiftUpHeap(s: seq<Entry>, i: nat)
    requires i < |s| && HeapBut(s, i)
    ensures IsHeap(SiftUp(s, i))
    ensures multiset(SiftUp(s, i)) == multiset(s)
    ensures |SiftUp(s, i)| == |s|
    decreases i
  {
    if i == 0 || s[i].priority >= s[Parent(i)].priority {
    } else {
      var p := Parent(i);
      var t := Swap(s, p, i);
      SwapFacts(s, p, i);
      forall j | 0 < j < |t| && j != p ensures t[Parent(j)].priority <= t[j].priority {
        if j == i {
        } else if Parent(j) == p {
          assert t[j] == s[j];
        } else if Parent(j) == i {
          assert t[j] == s[j];
        } else {
          assert t[j] == s[j] && t[Parent(j)] == s[Parent(j)];
        }
      }
      if p > 0 {
        assert s[Parent(p)].priority <= s[p].priority;
        forall j | 0 < j < |t| && Parent(j) == p ensures t[Parent(p)].priority <= t[j].priority {
          if j != i { assert t[j] == s[j]; }
        }
      }
      SiftUpHeap(t, p);
    }
  }

  /** `enqueue`: append, then let the new entry rise. */
  function Push(s: seq<Entry>, e: Entry): seq<Entry> {
    SiftUp(s + [e], |s|)
  }

  lemma PushHeap(s: seq<Entry>, e: Entry)
    requires IsHeap(s)
    ensures IsHeap(Push(s, e))
    ensures multiset(Push(s, e)) == multiset(s) + multiset{e}
    ensures |Push(s, e)| == |s| + 1
  {
    var t := s + [e];
    forall j | 0 < j < |t| && j != |s| ensures t[Parent(j)].priority <= t[j].priority {
      assert t[j] == s[j] && t[Parent(j)] == s[Parent(j)];
    }
    SiftUpHeap(t, |s|);
  }

  // ---------------------------------------------------------------- sink down

  /**
   * The child `_sinkDownFromIndex` swaps with, if any: the left child when it is
   * strictly below the entry; the right child when it is strictly below the entry
   * and the left one was not chosen, or strictly below the chosen left child.
   */
  function Choose(s: seq<Entry>, i: nat): (r: Option<nat>)
    requires i < |s|
    ensures r.Some? ==> i < r.value < |s| && (r.value == 2 * i + 1 || r.value == 2 * i + 2)
  {
    var l := 2 * i + 1;
    var rt := 2 * i + 2;
    var takeLeft := l < |s| && s[l].priority < s[i].priority;
    if rt < |s| && ((!takeLeft && s[rt].priority < s[i].priority) || (takeLeft && s[rt].priority < s[l].priority))
    then Some(rt)
    else if takeLeft then Some(l)
    else None
  }

  /** The chosen child is strictly below the entry and no sibling is below it; no choice means no child is below the entry. */
  lemma ChooseMinimal(s: seq<Entry>, i: nat)
    requires i < |s|
    ensures Choose(s, i).Some? ==> s[Choose(s, i).value].priority < s[i].priority
    ensures Choose(s, i).Some? ==> forall j :: 0 < j < |s| && Parent(j) == i ==> s[Choose(s, i).value].priority <= s[j].priority
    ensures Choose(s, i).None? ==> forall j :: 0 < j < |s| && Parent(j) == i ==> s[i].priority <= s[j].priority
  {
    forall j | 0 < j < |s| && Parent(j) == i ensures j == 2 * i + 1 || j == 2 * i + 2 { }
  }

  /** `_sinkDownFromIndex`: the entry at `i` sinks while one of its children is strictly below it. */
  function SiftDown(s: seq<Entry>, i: nat): seq<Entry>
    requires i < |s|
    decreases |s| - i
  {
    match Choose(s, i)
    case None => s
    case Some(c) => SiftDown(Swap(s, i, c), c)
  }

  /** A heap except that the entry at `i` may be above its children; those children are above `i`'s parent. */
  ghost predicate HeapAbove(s: seq<Entry>, i: nat) {
    (forall j {:trigger Parent(j)} :: 0 < j < |s| && Parent(j) != i ==> s[Parent(j)].priority <= s[j].priority) &&
    (i > 0 ==> forall j {:trigger Parent(j)} :: 0 < j < |s| && Parent(j) == i ==> s[Parent(i)].priority <= s[j].priority)
  }

  lemma {:induction false} SiftDownHeap(s: seq<Entry>, i: nat)
    requires i < |s| && HeapAbove(s, i)
    ensures IsHeap(SiftDown(s, i))
    ensures multiset(SiftDown(s, i)) == multiset(s)
    ensures |SiftDown(s, i)| == |s|
    decreases |s| - i
  {
    ChooseMinimal(s, i);
    match Choose(s, i)
    case None =>
    case Some(c) =>
      var t := Swap(s, i, c);
      SwapFacts(s, i, c);
      forall j | 0 < j < |t| && Parent(j) != c ensures t[Parent(j)].priority <= t[j].priority {
        if j == c {
        } else if Parent(j) == i {
          assert t[j] == s[j];
        } else if j == i {
          assert t[Parent(j)] == s[Parent(j)];
        } else {
          assert t[j] == s[j] && t[Parent(j)] == s[Parent(j)];
        }
      }
      forall j | 0 < j < |t| && Parent(j) == c ensures t[Parent(c)].priority <= t[j].priority {
        assert t[j] == s[j];
      }
      SiftDownHeap(t, c);
  }

  /** `dequeue` on a non-empty queue: the last entry replaces the root and sinks. */
  function Pop(s: seq<Entry>): seq<Entry>
    requires |s| > 0
  {
    if |s| == 1 then [] else SiftDown(s[..|s| - 1][0 := s[|s| - 1]], 0)
  }

  lemma PopHeap(s: seq<Entry>)
    requires |s| > 0 && IsHeap(s)
    ensures IsHeap(Pop(s))
    ensures multiset(Pop(s)) + multiset{s[0]} == multiset(s)
    ensures |Pop(s)| == |s| - 1
  {
    if |s| > 1 {
      var t := s[..|s| - 1][0 := s[|s| - 1]];
      forall j | 0 < j < |t| && Parent(j) != 0 ensures t[Parent(j)].priority <= t[j].priority {
        assert t[j] == s[j] && t[Parent(j)] == s[Parent(j)];
      }
      SiftDownHeap(t, 0);
      RootReplaced(s);
    }
  }

  /** Moving the last entry over the root loses exactly the root. */
  lemma RootReplaced(s: seq<Entry>)
    requires |s| > 1
    ensures multiset(s[..|s| - 1][0 := s[|s| - 1]]) + multiset{s[0]} == multiset(s)
  {
    var mid := s[1..|s| - 1];
    assert s == [s[0]] + mid + [s[|s| - 1]];
    assert s[..|s| - 1][0 := s[|s| - 1]] == [s[|s| - 1]] + mid;
  }

  /** The root of a heap has the least priority: what `dequeue` hands out is a minimum. */
  lemma {:induction false} HeapRootMinimal(s: seq<Entry>, k: nat)
    requires IsHeap(s) && k < |s|
    ensures s[0].priority <= s[k].priority
    decreases k
  {
    if k > 0 {
      HeapRootMinimal(s, Parent(k));
    }
  }

  /** What a dequeue leaves: every entry but one copy of the root, and the root was a least entry. */
  lemma PopMembers(s: seq<Entry>)
    requires |s| > 0 && IsHeap(s)
    ensures forall y :: y in Pop(s) ==> y in s
    ensures forall y :: y in s && y != s[0] ==> y in Pop(s)
    ensures forall y :: y in s ==> s[0].priority <= y.priority
    ensures |Pop(s)| == |s| - 1
  {
    PopHeap(s);
    forall y | y in Pop(s) ensures y in s {
      assert y in multiset(Pop(s));
      assert multiset(Pop(s)) <= multiset(s);
      assert y in multiset(s);
    }
    forall y | y in s && y != s[0] ensures y in Pop(s) {
      assert y in multiset(s);
    }
    forall y | y in s ensures s[0].priority <= y.priority {
      var k :| 0 <= k < |s| && s[k] == y;
      HeapRootMinimal(s, k);
    }
  }

  /** What an enqueue leaves: the old entries and the new one. */
  lemma PushMembers(s: seq<Entry>, e: Entry)
    requires IsHeap(s)
    ensures IsHeap(Push(s, e))
    ensures forall y :: y in Push(s, e) <==> y in s || y == e
  {
    PushHeap(s, e);
    forall y ensures y in Push(s, e) <==> y in s || y == e {
      assert y in Push(s, e) <==> y in multiset(Push(s, e));
      assert y in s <==> y in multiset(s);
    }
  }

  // ---------------------------------------------------------------- the class

  class PriorityQueue {
    var values: array<Entry>
    var size: nat

    ghost predicate Valid()
      reads this, values
    {
      size <= values.Length && IsHeap(values[..size])
    }

    /** The queue's entries in heap order (`this.values`). */
    ghost function Contents(): seq<Entry>
      reads this, values
      requires size <= values.Length
    {
      values[..size]
    }

    constructor ()
      ensures Valid() && Contents() == [] && fresh(values)
    {
      values := new Entry[8];
      size := 0;
    }

    /** `isEmpty`. */
    method IsEmpty() returns (b: bool)
      requires Valid()
      ensures b <==> Contents() == []
    {
      b := size == 0;
    }

    /** `enqueue(element, priority)`: push, then bubble up from the last index. */
    method Enqueue(element: NodeId, priority: int)
      requires Valid()
      modifies this, values
      ensures fresh(values) || values == old(values)
      ensures Valid() && Contents() == Push(old(Contents()), Entry(element, priority))
    {
      ghost var before := values[..size];
      if size == values.Length {
        Grow();
      }
      values[size] := Entry(element, priority);
      size := size + 1;
      assert values[..size] == before + [Entry(element, priority)];
      BubbleUp();
      assert values[..size] == Push(before, Entry(element, priority));
      PushHeap(before, Entry(element, priority));
    }

    /** Room for one more entry (a JavaScript array grows by itself; this one is reallocated). */
    method Grow()
      requires size <= values.Length
      modifies this
      ensures fresh(values) && size < values.Length && size == old(size)
      ensures values[..size] == old(values[..size])
    {
      var grown := new Entry[2 * values.Length + 1];
      forall i | 0 <= i < size {
        grown[i] := values[i];
      }
      values := grown;
    }

    /** `_bubbleUpFromIndex(this.values.length - 1)`. */
    method BubbleUp()
      requires 0 < size <= values.Length
      modifies values
      ensures values[..size] == SiftUp(old(values[..size]), size - 1)
    {
      ghost var target := SiftUp(values[..size], size - 1);
      var idx := size - 1;
      while idx > 0
        invariant 0 <= idx < size
        invariant SiftUp(values[..size], idx) == target
        decreases idx
      {
        var parentIdx := (idx - 1) / 2;
        var element := values[idx];
        var parent := values[parentIdx];
        if element.priority >= parent.priority {
          break;
        }
        ghost var pre := values[..size];
        values[parentIdx], values[idx] := element, parent;
        assert values[..size] == Swap(pre, parentIdx, idx);
        idx := parentIdx;
      }
    }

    /**
     * `dequeue`: `null` on an empty queue; otherwise the root's element, the last
     * entry moved to the root and sunk down.
     */
    method Dequeue() returns (r: Option<NodeId>)
      requires Valid()
      modifies this, values
      ensures values == old(values) && Valid()
      ensures old(Contents()) == [] ==> r.None? && Contents() == []
      ensures old(Contents()) != [] ==> r == Some(old(Contents())[0].element) && Contents() == Pop(old(Contents()))
    {
      if size == 0 {
        return None;
      }
      ghost var before := values[..size];
      PopHeap(before);
      var min := values[0];
      var end := values[size - 1];
      size := size - 1;
      r := Some(min.element);
      if size > 0 {
        values[0] := end;
        assert values[..size] == before[..|before| - 1][0 := end];
        SinkDown();
      }
    }

    /** `_sinkDownFromIndex(0)`. */
    method SinkDown()
      requires 0 < size <= values.Length
      modifies values
      ensures values[..size] == SiftDown(old(values[..size]), 0)
    {
      ghost var target := SiftDown(values[..size], 0);
      var idx := 0;
      while true
        invariant 0 <= idx < size
        invariant SiftDown(values[..size], idx) == target
        decreases size - idx
      {
        var element := values[idx];
        var leftChildIdx := 2 * idx + 1;
        var rightChildIdx := 2 * idx + 2;
        var swap: Option<nat> := None;
        if leftChildIdx < size {
          if values[leftChildIdx].priority < element.priority {
            swap := Some(leftChildIdx);
          }
        }
        if rightChildIdx < size {
          var rightChild := values[rightChildIdx];
          if (swap.None? && rightChild.priority < element.priority) ||
             (swap.Some? && rightChild.priority < values[leftChildIdx].priority) {
            swap := Some(rightChildIdx);
          }
        }
        assert swap == Choose(values[..size], idx);
        if swap.None? {
          break;
        }
        ghost var pre := values[..size];
        values[idx], values[swap.value] := values[swap.value], element;
        assert values[..size] == Swap(pre, idx, swap.value);
        idx := swap.value;
      }
    }
  }
}
