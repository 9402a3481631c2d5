/**
 * The array-backed binary min-heap of the shortest-path engine.
 *
 * Storage is 1-based: slot 0 is never used and the elements live in
 * tree[1..Count]. The source orders its elements through a comparer that
 * reads the caller's mutable distance table; here the caller passes the
 * current key of every element as a function `key`, and `a` sorts before
 * `b` exactly when key(a) < key(b).
 */
module PriorityQueue {
  import opened Wrappers

  /** The value of an unused slot (the source's default(T), a null vertex). */
  const Empty: int := -1

  /** The capacity of a new queue. */
  const InitialCapacity: nat := 30

  /** Heap order on a[1..n] for every child whose parent sits at lo or later. */
  ghost predicate HeapFrom(a: seq<int>, n: nat, key: int -> int, lo: nat)
  {
    n < |a| &&
    forall c :: 2 <= c <= n && lo <= c / 2 ==> key(a[c / 2]) <= key(a[c])
  }

  /** Heap order on a[1..n]: every parent key is at most its child's key. */
  ghost predicate IsHeap(a: seq<int>, n: nat, key: int -> int)
  {
    HeapFrom(a, n, key, 1)
  }

  /**
   * The state in the middle of a sift-up at position k: the order holds
   * everywhere except between k and its parent, and k's parent is already
   * no greater than k's children.
   */
  ghost predicate HeapExceptUp(a: seq<int>, n: nat, key: int -> int, k: nat)
  {
    n < |a| && 1 <= k <= n &&
    (forall c :: 2 <= c <= n && c != k ==> key(a[c / 2]) <= key(a[c])) &&
    (k >= 2 ==> forall c :: 2 <= c <= n && c / 2 == k ==> key(a[k / 2]) <= key(a[c]))
  }

  /**
   * The state in the middle of a sift-down at position k of the part of the
   * heap rooted at lo or later: the order holds except between k and its
   * children, and k's parent is already no greater than k's children.
   */
  ghost predicate HeapExceptDown(a: seq<int>, n: nat, key: int -> int, lo: nat, k: nat)
  {
    n < |a| && 1 <= lo <= k &&
    (forall c :: 2 <= c <= n && lo <= c / 2 && c / 2 != k ==> key(a[c / 2]) <= key(a[c])) &&
    (lo <= k / 2 ==> forall c :: 2 <= c <= n && c / 2 == k ==> key(a[k / 2]) <= key(a[c]))
  }

  /** The root of a heap holds a minimal key. */
  lemma {:induction false} HeapRootIsMin(a: seq<int>, n: nat, key: int -> int, j: nat)
    requires IsHeap(a, n, key) && 1 <= j <= n
    ensures key(a[1]) <= key(a[j])
    decreases j
  {
    if j > 1 {
      HeapRootIsMin(a, n, key, j / 2);
    }
  }

  /** One step of the sift-up: compare k with its parent, swap if smaller, move to the parent. */
  lemma SiftUpStep(a: seq<int>, n: nat, key: int -> int, k: nat)
    requires HeapExceptUp(a, n, key, k) && k >= 2
    ensures key(a[k]) < key(a[k / 2]) ==> HeapExceptUp(a[k := a[k / 2]][k / 2 := a[k]], n, key, k / 2)
    ensures !(key(a[k]) < key(a[k / 2])) ==> HeapExceptUp(a, n, key, k / 2)
  {
    var p := k / 2;
    if key(a[k]) < key(a[p]) {
      var b := a[k := a[p]][p := a[k]];
      forall c | 2 <= c <= n && c != p
        ensures key(b[c / 2]) <= key(b[c])
      {
        if c == k {
        } else if c / 2 == k {
          assert key(a[k / 2]) <= key(a[c]);
        } else if c / 2 == p {
          assert key(a[p]) <= key(a[c]);
        } else {
          assert key(a[c / 2]) <= key(a[c]);
        }
      }
      if p >= 2 {
        forall c | 2 <= c <= n && c / 2 == p
          ensures key(b[p / 2]) <= key(b[c])
        {
          assert key(a[p / 2]) <= key(a[p]);
          if c != k {
            assert key(a[p]) <= key(a[c]);
          }
        }
      }
    } else {
      forall c | 2 <= c <= n && c != p
        ensures key(a[c / 2]) <= key(a[c])
      {
        if c == k {
        } else if c / 2 == k {
          assert key(a[k / 2]) <= key(a[c]);
        }
      }
      if p >= 2 {
        forall c | 2 <= c <= n && c / 2 == p
          ensures key(a[p / 2]) <= key(a[c])
        {
          assert key(a[p / 2]) <= key(a[p]);
          if c != k {
            assert key(a[p]) <= key(a[c]);
          }
        }
      }
    }
  }

  /** The child a sift-down at k moves to: the smaller child, the right one on ties. */
  function SmallerChild(a: seq<int>, n: nat, key: int -> int, k: nat): (m: nat)
    requires 2 * k <= n < |a|
    ensures m == 2 * k || m == 2 * k + 1
    ensures m <= n
    ensures forall c :: 2 * k <= c <= n && c <= 2 * k + 1 ==> key(a[m]) <= key(a[c])
  {
    if 2 * k + 1 > n || key(a[2 * k]) < key(a[2 * k + 1]) then 2 * k else 2 * k + 1
  }

  /** One step of the sift-down: swap k with its smaller child m if that child is smaller, move to m. */
  lemma SiftDownStep(a: seq<int>, n: nat, key: int -> int, lo: nat, k: nat)
    requires HeapExceptDown(a, n, key, lo, k) && 2 * k <= n
    ensures var m := SmallerChild(a, n, key, k);
      (key(a[m]) < key(a[k]) ==> HeapExceptDown(a[m := a[k]][k := a[m]], n, key, lo, m)) &&
      (!(key(a[m]) < key(a[k])) ==> HeapExceptDown(a, n, key, lo, m))
  {
    var m := SmallerChild(a, n, key, k);
    if key(a[m]) < key(a[k]) {
      var b := a[m := a[k]][k := a[m]];
      forall c | 2 <= c <= n && lo <= c / 2 && c / 2 != m
        ensures key(b[c / 2]) <= key(b[c])
      {
        if c / 2 == k {
          assert key(a[m]) <= key(a[c]);
        } else if c == k {
          assert key(a[k / 2]) <= key(a[m]);
        } else {
          assert key(a[c / 2]) <= key(a[c]);
        }
      }
      forall c | 2 <= c <= n && c / 2 == m
        ensures key(b[m / 2]) <= key(b[c])
      {
        assert key(a[m]) <= key(a[c]);
      }
    } else {
      forall c | 2 <= c <= n && c / 2 == m
        ensures key(a[m / 2]) <= key(a[c])
      {
        assert key(a[m]) <= key(a[c]);
      }
    }
  }

  /** A sift-down that has reached a leaf leaves the part from lo on in heap order. */
  lemma SiftDownDone(a: seq<int>, n: nat, key: int -> int, lo: nat, k: nat)
    requires HeapExceptDown(a, n, key, lo, k) && 2 * k > n
    ensures HeapFrom(a, n, key, lo)
  {
  }

  /** A sequence that differs from c only by exchanging positions x and y has the same multiset. */
  lemma SwapKeepsMultiset(c: seq<int>, d: seq<int>, x: nat, y: nat)
    requires x < |c| && y < |c| && |d| == |c|
    requires d[x] == c[y] && d[y] == c[x]
    requires forall k :: 0 <= k < |c| && k != x && k != y ==> d[k] == c[k]
    ensures multiset(d) == multiset(c)
  {
    assert d == c[x := c[y]][y := c[x]];
  }

  /** Writing a new last element after a heap of n - 1 elements leaves a sift-up state at n. */
  lemma HeapGrows(before: seq<int>, after: seq<int>, n: nat, key: int -> int)
    requires 1 <= n < |after| && IsHeap(before, n - 1, key)
    requires after[..n] == before[..n]
    ensures HeapExceptUp(after, n, key, n)
  {
    forall c | 2 <= c <= n && c != n
      ensures key(after[c / 2]) <= key(after[c])
    {
      assert after[c / 2] == before[c / 2] && after[c] == before[c];
    }
  }

  /** The slots after a pop, described one by one, are the two updates of the old slots. */
  lemma PoppedSlots(a: seq<int>, b: seq<int>, n: nat)
    requires 1 <= n < |a|
    requires |b| == |a| && b[n] == Empty && (n > 1 ==> b[1] == a[n])
    requires forall k :: 0 <= k < |a| && k != 1 && k != n ==> b[k] == a[k]
    ensures b == a[1 := a[n]][n := Empty]
  {
  }

  /**
   * Moving the last of n elements to the root and clearing its slot removes
   * exactly the old root, which was minimal, and leaves a sift-down state at 1.
   */
  lemma RemoveRoot(a: seq<int>, b: seq<int>, n: nat, key: int -> int)
    requires 1 <= n < |a| && IsHeap(a, n, key)
    requires b == a[1 := a[n]][n := Empty]
    ensures multiset(a[1..n + 1]) == multiset(b[1..n]) + multiset{a[1]}
    ensures forall x :: x in b[1..n] ==> key(a[1]) <= key(x)
    ensures HeapExceptDown(b, n - 1, key, 1, 1)
  {
    assert multiset(a[1..n + 1]) == multiset(b[1..n]) + multiset{a[1]} by {
      if n > 1 {
        assert b[1..n] == [a[n]] + a[2..n];
        assert a[1..n + 1] == [a[1]] + a[2..n + 1];
        assert a[2..n + 1] == a[2..n] + [a[n]];
      } else {
        assert b[1..n] == [];
        assert a[1..n + 1] == [a[1]];
      }
    }
    forall x | x in b[1..n]
      ensures key(a[1]) <= key(x)
    {
      var j :| 1 <= j < n && b[j] == x;
      HeapRootIsMin(a, n, key, if j == 1 then n else j);
    }
    forall c | 2 <= c <= n - 1 && 1 <= c / 2 && c / 2 != 1
      ensures key(b[c / 2]) <= key(b[c])
    {
      assert key(a[c / 2]) <= key(a[c]);
    }
  }

  class PriorityQue {
    var tree: array<int>
    var Count: nat

    /** Slot 0 and every slot above Count hold Empty; slots 1..Count hold elements. */
    ghost predicate Valid()
      reads this, tree
    {
      Count < tree.Length && tree[0] == Empty &&
      (forall i :: Count < i < tree.Length ==> tree[i] == Empty) &&
      (forall i :: 1 <= i <= Count ==> tree[i] != Empty)
    }

    /** The queued elements, in storage order. */
    ghost function Contents(): seq<int>
      reads this, tree
      requires Valid()
    {
      tree[1..Count + 1]
    }

    /** Heap order of the stored elements under the current keys. */
    ghost predicate HeapOrdered(key: int -> int)
      reads this, tree
      requires Valid()
    {
      IsHeap(tree[..], Count, key)
    }

    constructor ()
      ensures Valid() && fresh(tree)
      ensures tree.Length == InitialCapacity && Count == 0 && Contents() == []
    {
      tree := new int[InitialCapacity](_ => Empty);
      Count := 0;
    }

    function IsEmpty(): (b: bool)
      reads this, tree
      requires Valid()
      ensures b <==> Contents() == []
    {
      Count == 0
    }

    /**
     * Membership scan over the whole backing array. Since the unused slots
     * hold Empty, for any element other than Empty it answers membership in
     * the queued elements.
     */
    function Contains(item: int): (found: bool)
      reads this, tree
      requires Valid()
      ensures found <==> item in tree[..]
      ensures item != Empty ==> (found <==> item in Contents())
    {
      assert item != Empty ==> (item in tree[..] <==> item in Contents()) by {
        if item != Empty && item in tree[..] {
          var i :| 0 <= i < tree.Length && tree[i] == item;
          assert Contents()[i - 1] == item;
        }
        if item in Contents() {
          var j :| 0 <= j < Count && Contents()[j] == item;
          assert tree[..][j + 1] == item;
        }
      }
      item in tree[..]
    }

    /**
     * The 0-based indexer over 1-based storage: slot i for 0 <= i < Count,
     * which shows slot 0 and hides the last element; None where the source throws.
     */
    function Item(i: int): (r: Option<int>)
      reads this, tree
      requires Valid()
      ensures r.Some? <==> 0 <= i < Count
      ensures r.Some? && i == 0 ==> r.value == Empty
      ensures r.Some? && i > 0 ==> r.value == Contents()[i - 1]
    {
      if i > -1 && i < Count then Some(tree[i]) else None
    }

    /** Replaces the backing array by one twice as long holding the same slots, the new ones Empty. */
    method IncreaseTree()
      modifies this
      ensures fresh(tree) && tree.Length == 2 * old(tree.Length) && Count == old(Count)
      ensures tree[..old(tree.Length)] == old(tree[..])
      ensures forall i :: old(tree.Length) <= i < tree.Length ==> tree[i] == Empty
    {
      var temp := new int[tree.Length * 2](_ => Empty);
      forall i | 0 <= i < tree.Length {
        temp[i] := tree[i];
      }
      tree := temp;
    }

    method Enqueu(value: int, key: int -> int)
      requires Valid() && value != Empty
      modifies this, tree
      ensures Valid() && (tree == old(tree) || fresh(tree))
      ensures tree.Length == if old(Count) + 1 < old(tree.Length) then old(tree.Length) else 2 * old(tree.Length)
      ensures Count == old(Count) + 1
      ensures multiset(Contents()) == multiset(old(Contents())) + multiset{value}
      ensures old(HeapOrdered(key)) ==> HeapOrdered(key)
    {
      ghost var before := tree[..];
      ghost var wasHeap := HeapOrdered(key);
      Append(value);
      if wasHeap {
        HeapGrows(before, tree[..], Count, key);
      }
      HeapifyUp(Count, key);
    }

    /** The first half of Enqueu: count the new element, grow when full, write it at Count. */
    method Append(value: int)
      requires Valid() && value != Empty
      modifies this, tree
      ensures Valid() && (tree == old(tree) || fresh(tree))
      ensures tree.Length == if old(Count) + 1 < old(tree.Length) then old(tree.Length) else 2 * old(tree.Length)
      ensures Count == old(Count) + 1
      ensures Contents() == old(Contents()) + [value]
      ensures tree[..Count] == old(tree[..])[..Count]
    {
      ghost var before := tree[..];
      ghost var c := Contents();
      assert c == before[1..Count + 1];
      Count := Count + 1;
      if Count >= tree.Length {
        IncreaseTree();
      }
      assert tree[..Count] == before[..Count];
      tree[Count] := value;
      assert tree[..Count] == before[..Count];
      assert Valid();
      assert Contents() == c + [value];
    }

    /** Exchanges two occupied slots. */
    method Swap(i: nat, j: nat)
      requires Valid() && 1 <= i <= Count && 1 <= j <= Count
      modifies tree
      ensures Valid()
      ensures multiset(Contents()) == old(multiset(Contents()))
      ensures tree[..] == old(tree[..])[i := old(tree[j])][j := old(tree[i])]
    {
      ghost var c := Contents();
      var temp := tree[i];
      tree[i] := tree[j];
      tree[j] := temp;
      assert Valid() by {
        assert forall k :: 0 <= k < tree.Length && k != i && k != j ==> tree[k] == old(tree[k]);
      }
      ghost var d := Contents();
      forall k | 0 <= k < |c| && k != i - 1 && k != j - 1
        ensures d[k] == c[k]
      {
        assert d[k] == tree[k + 1] && c[k] == old(tree[k + 1]);
      }
      SwapKeepsMultiset(c, d, i - 1, j - 1);
    }

    method HeapifyUp(index: nat, key: int -> int)
      requires Valid() && 1 <= index <= Count
      modifies tree
      ensures Valid()
      ensures multiset(Contents()) == old(multiset(Contents()))
      ensures old(HeapExceptUp(tree[..], Count, key, index)) ==> HeapOrdered(key)
      decreases index
    {
      var parent := index / 2;
      if parent < 1 {
        return;
      }
      ghost var a := tree[..];
      if key(tree[index]) < key(tree[parent]) {
        Swap(index, parent);
      }
      if HeapExceptUp(a, Count, key, index) {
        SiftUpStep(a, Count, key, index);
      }
      HeapifyUp(parent, key);
    }

    /**
     * Bounded sift-down from index: the right child takes part only when it
     * exists, the smaller child is compared against the parent and the two
     * are really exchanged; the sift then continues at that child.
     */
    method HeapifyDown(index: nat, key: int -> int, ghost lo: nat)
      requires Valid() && 1 <= lo <= index
      requires HeapExceptDown(tree[..], Count, key, lo, index)
      modifies tree
      ensures Valid()
      ensures multiset(Contents()) == old(multiset(Contents()))
      ensures HeapFrom(tree[..], Count, key, lo)
      decreases Count - index
    {
      var leftChild := index * 2;
      var rightChild := index * 2 + 1;
      var swapIndex := 0;
      if leftChild > Count {
        SiftDownDone(tree[..], Count, key, lo, index);
        return;
      }
      if rightChild > Count || key(tree[leftChild]) < key(tree[rightChild]) {
        swapIndex := leftChild;
      } else {
        swapIndex := rightChild;
      }
      ghost var a := tree[..];
      assert swapIndex == SmallerChild(a, Count, key, index);
      SiftDownStep(a, Count, key, lo, index);
      if key(tree[swapIndex]) < key(tree[index]) {
        Swap(swapIndex, index);
      }
      HeapifyDown(swapIndex, key, lo);
    }

    /** Rebuilds heap order over tree[1..Count] under the current keys, whatever order it had. */
    method Sort(key: int -> int)
      requires Valid()
      modifies tree
      ensures Valid() && HeapOrdered(key)
      ensures multiset(Contents()) == old(multiset(Contents()))
    {
      var i := Count / 2;
      while i > 0
        invariant 0 <= i <= Count / 2
        invariant Valid()
        invariant multiset(Contents()) == old(multiset(Contents()))
        invariant HeapFrom(tree[..], Count, key, i + 1)
      {
        HeapifyDown(i, key, i);
        i := i - 1;
      }
    }

    method Deqeue(key: int -> int) returns (root: int)
      requires Valid() && Count > 0
      modifies this, tree
      ensures Valid() && tree == old(tree)
      ensures Count == old(Count) - 1
      ensures multiset(old(Contents())) == multiset(Contents()) + multiset{root}
      ensures forall x :: x in Contents() ==> key(root) <= key(x)
      ensures root != Empty && tree[old(Count)] == Empty
      ensures HeapOrdered(key)
    {
      Sort(key);
      root := TakeRoot(key);
      ghost var mid := Contents();
      HeapifyDown(1, key, 1);
      forall x | x in Contents()
        ensures key(root) <= key(x)
      {
        assert x in multiset(mid);
      }
    }

    /** The middle of Deqeue: take the root of a heap, move the last element up, clear its slot. */
    method TakeRoot(key: int -> int) returns (root: int)
      requires Valid() && Count > 0 && HeapOrdered(key)
      modifies this, tree
      ensures Valid() && tree == old(tree) && Count == old(Count) - 1
      ensures root != Empty && tree[old(Count)] == Empty
      ensures multiset(old(Contents())) == multiset(Contents()) + multiset{root}
      ensures forall x :: x in Contents() ==> key(root) <= key(x)
      ensures HeapExceptDown(tree[..], Count, key, 1, 1)
    {
      ghost var a := tree[..];
      ghost var c := Contents();
      assert c == a[1..Count + 1];
      root := MoveLastToRoot();
      ghost var b := tree[..];
      forall k | 0 <= k < |a| && k != 1 && k != Count + 1
        ensures b[k] == a[k]
      {
        assert b[k] == tree[k];
      }
      PoppedSlots(a, b, Count + 1);
      RemoveRoot(a, b, Count + 1, key);
      assert Contents() == b[1..Count + 1];
      assert multiset(c) == multiset(Contents()) + multiset{root};
    }

    /** The writes of a pop: the last element moves into slot 1 and its own slot is cleared. */
    method MoveLastToRoot() returns (root: int)
      requires Valid() && Count > 0
      modifies this, tree
      ensures Valid() && tree == old(tree) && Count == old(Count) - 1
      ensures root == old(tree[1]) && root != Empty
      ensures tree[old(Count)] == Empty && (old(Count) > 1 ==> tree[1] == old(tree[Count]))
      ensures forall k :: 0 <= k < tree.Length && k != 1 && k != old(Count) ==> tree[k] == old(tree[k])
    {
      root := tree[1];
      tree[1] := tree[Count];
      tree[Count] := Empty;
      Count := Count - 1;
    }
  }
}
