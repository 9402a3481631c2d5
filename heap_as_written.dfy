/**
 * The defective queue code as the repository writes it. HeapifyDown, Sort
 * and Deqeue are modelled on a snapshot of the storage array, with their
 * compares and writes; the comparer's call on the empty slot becomes an
 * ordinary key(Empty). HeapifyUp is modelled only by the indices its
 * recursion visits and its exit test, which is enough to show that it never
 * returns. The class PriorityQue corrects both defects, and the rest of the
 * model uses the corrected versions.
 */
module HeapAsWritten {
  import opened PriorityQueue

  /** HeapifyUp returns early only when the parent index, index / 2, is negative. */
  function SiftUpReturns(index: nat): bool
  {
    index / 2 < 0
  }

  /** The index HeapifyUp is called on after `depth` nested recursive calls. */
  function SiftUpIndex(index: nat, depth: nat): (r: nat)
    ensures r <= index
  {
    if depth == 0 then index else SiftUpIndex(index, depth - 1) / 2
  }

  /**
   * HeapifyUp as written always reaches its recursive call, at every depth,
   * so it never returns; once the index reaches 0 it calls itself on 0 forever.
   */
  lemma {:induction false} SiftUpNeverReturns(index: nat, depth: nat)
    ensures !SiftUpReturns(SiftUpIndex(index, depth))
    ensures SiftUpIndex(index, depth) <= if depth <= index then index - depth else 0
    ensures depth >= index ==> SiftUpIndex(index, depth) == 0 == SiftUpIndex(index, depth + 1)
    decreases depth
  {
    if depth > 0 {
      SiftUpNeverReturns(index, depth - 1);
    }
  }

  /** The swap of HeapifyDown as written: both writes go to slot s. */
  function SwapAsWritten(a: seq<int>, s: nat, l: nat): (r: seq<int>)
    requires s < |a| && l < |a|
    ensures r == a
  {
    var temp := a[s];
    a[s := a[l]][s := temp]
  }

  /**
   * HeapifyDown as written: the right child is read even when it lies past
   * n, the chosen child is compared against the left child rather than the
   * parent, and the exchange writes one slot twice.
   */
  function SiftDownAsWritten(a: seq<int>, n: nat, key: int -> int, index: nat): (r: seq<int>)
    requires 1 <= index && n < |a| && |a| % 2 == 0
    ensures |r| == |a|
    decreases |a| - index
  {
    var leftChild := index * 2;
    var rightChild := index * 2 + 1;
    if leftChild > n then a
    else
      var swapIndex := if key(a[leftChild]) < key(a[rightChild]) then leftChild else rightChild;
      var b := if key(a[swapIndex]) < key(a[leftChild]) then SwapAsWritten(a, swapIndex, leftChild) else a;
      SiftDownAsWritten(b, n, key, swapIndex)
  }

  /** Sort as written: HeapifyDown at i, i - 1, ..., 1. */
  function SortAsWritten(a: seq<int>, n: nat, key: int -> int, i: nat): (r: seq<int>)
    requires n < |a| && |a| % 2 == 0
    ensures |r| == |a|
    decreases i
  {
    if i == 0 then a else SortAsWritten(SiftDownAsWritten(a, n, key, i), n, key, i - 1)
  }

  /** Deqeue as written: Sort, take slot 1, move the last element up and sift it down. */
  function DeqeueAsWritten(a: seq<int>, n: nat, key: int -> int): (r: (int, seq<int>))
    requires 1 <= n < |a| && |a| % 2 == 0
  {
    var b := SortAsWritten(a, n, key, n / 2);
    (b[1], SiftDownAsWritten(b[1 := b[n]][n := Empty], n - 1, key, 1))
  }

  /** HeapifyDown as written leaves the array exactly as it was. */
  lemma {:induction false} SiftDownChangesNothing(a: seq<int>, n: nat, key: int -> int, index: nat)
    requires 1 <= index && n < |a| && |a| % 2 == 0
    ensures SiftDownAsWritten(a, n, key, index) == a
    decreases |a| - index
  {
    var leftChild := index * 2;
    if leftChild <= n {
      var rightChild := index * 2 + 1;
      var swapIndex := if key(a[leftChild]) < key(a[rightChild]) then leftChild else rightChild;
      SiftDownChangesNothing(a, n, key, swapIndex);
    }
  }

  /** So Sort as written leaves the array as it was, heap or not. */
  lemma {:induction false} SortChangesNothing(a: seq<int>, n: nat, key: int -> int, i: nat)
    requires n < |a| && |a| % 2 == 0
    ensures SortAsWritten(a, n, key, i) == a
    decreases i
  {
    if i > 0 {
      SiftDownChangesNothing(a, n, key, i);
      SortChangesNothing(a, n, key, i - 1);
    }
  }

  /**
   * A queue holding 5 and 1, stored out of heap order, with each element
   * its own key: Deqeue as written returns 5 although 1 is queued.
   */
  lemma DeqeueAsWrittenMissesMinimum()
    ensures var a := [Empty, 5, 1, Empty];
            var key := (x: int) => x;
            DeqeueAsWritten(a, 2, key).0 == 5 && 1 in a[1..3] && key(1) < key(5)
  {
    var a := [Empty, 5, 1, Empty];
    var key := (x: int) => x;
    SortChangesNothing(a, 2, key, 1);
  }
}
