/** lib/stdlib.c: heap sort and binary search over an array, by a comparison
    function.  Indexes into the heap are 1-based. */
module HeapSort {

  type Compare<!T> = (T, T) -> int

  /** A strcmp()-type comparison of a total preorder. */
  ghost predicate Preorder<T(!new)>(cmp: Compare<T>) {
    && (forall x, y :: cmp(x, y) < 0 <==> cmp(y, x) > 0)
    && (forall x, y, z :: cmp(x, y) <= 0 && cmp(y, z) <= 0 ==> cmp(x, z) <= 0)
  }

  lemma Reflexive<T(!new)>(cmp: Compare<T>, x: T)
    requires Preorder(cmp)
    ensures cmp(x, x) == 0
  {
  }

  /** Node `i` is not below its children. */
  ghost predicate HeapAt<T>(cmp: Compare<T>, s: seq<T>, i: nat, cnt: nat)
    requires 1 <= i && cnt <= |s|
  {
    && (2 * i <= cnt ==> cmp(s[2 * i - 1], s[i - 1]) <= 0)
    && (2 * i + 1 <= cnt ==> cmp(s[2 * i], s[i - 1]) <= 0)
  }

  /** All nodes from `lo` on, but perhaps `hole`, are not below their children. */
  ghost predicate HeapBut<T>(cmp: Compare<T>, s: seq<T>, lo: nat, hole: nat, cnt: nat)
    requires 1 <= lo && cnt <= |s|
  {
    forall i {:trigger HeapAt(cmp, s, i, cnt)} :: lo <= i <= cnt && i != hole ==> HeapAt(cmp, s, i, cnt)
  }

  ghost predicate Heap<T>(cmp: Compare<T>, s: seq<T>, lo: nat, cnt: nat)
    requires 1 <= lo && cnt <= |s|
  {
    HeapBut(cmp, s, lo, 0, cnt)
  }

  /** The children of the hole are not above its parent. */
  ghost predicate Covered<T>(cmp: Compare<T>, s: seq<T>, lo: nat, hole: nat, cnt: nat)
    requires 1 <= lo && cnt <= |s|
  {
    hole / 2 >= lo && hole <= cnt ==>
      && (2 * hole <= cnt ==> cmp(s[2 * hole - 1], s[hole / 2 - 1]) <= 0)
      && (2 * hole + 1 <= cnt ==> cmp(s[2 * hole], s[hole / 2 - 1]) <= 0)
  }

  function Swapped<T>(s: seq<T>, i: nat, j: nat): seq<T>
    requires 1 <= i <= |s| && 1 <= j <= |s|
  {
    s[i - 1 := s[j - 1]][j - 1 := s[i - 1]]
  }

  lemma SwappedBag<T>(s: seq<T>, i: nat, j: nat)
    requires 1 <= i <= |s| && 1 <= j <= |s|
    ensures multiset(Swapped(s, i, j)) == multiset(s)
  {
  }

  /** The larger child of the hole moves up, the hole moves down. */
  lemma SiftStep<T(!new)>(cmp: Compare<T>, s: seq<T>, lo: nat, i: nat, max: nat, cnt: nat)
    requires Preorder(cmp) && 1 <= lo <= i && i <= cnt <= |s| && (max == 2 * i || max == 2 * i + 1) && max <= cnt
    requires HeapBut(cmp, s, lo, i, cnt) && Covered(cmp, s, lo, i, cnt)
    requires cmp(s[max - 1], s[i - 1]) >= 0
    requires 2 * i <= cnt ==> cmp(s[2 * i - 1], s[max - 1]) <= 0
    requires 2 * i + 1 <= cnt ==> cmp(s[2 * i], s[max - 1]) <= 0
    ensures HeapBut(cmp, Swapped(s, i, max), lo, max, cnt) && Covered(cmp, Swapped(s, i, max), lo, max, cnt)
  {
    hide Swapped;
    var r := Swapped(s, i, max);
    SwappedAt(s, i, max);
    assert HeapAt(cmp, s, max, cnt);
    SiftHole(cmp, s, r, lo, i, max, cnt);
    hide Covered, Preorder;
    forall j | lo <= j <= cnt && j != max && j != i
      ensures HeapAt(cmp, r, j, cnt)
    {
      assert HeapAt(cmp, s, j, cnt);
      CoveredAt(cmp, s, lo, i, max, j, cnt);
      SiftElsewhere(cmp, s, r, i, max, j, cnt);
    }
  }

  lemma CoveredAt<T>(cmp: Compare<T>, s: seq<T>, lo: nat, i: nat, max: nat, j: nat, cnt: nat)
    requires 1 <= lo <= j && i <= cnt <= |s| && Covered(cmp, s, lo, i, cnt) && (max == 2 * i || max == 2 * i + 1) && max <= cnt
    ensures j <= |s| && j == i / 2 ==> cmp(s[max - 1], s[j - 1]) <= 0
  {
  }

  /** The old hole now holds the larger child, and the new one is covered. */
  lemma SiftHole<T(!new)>(cmp: Compare<T>, s: seq<T>, r: seq<T>, lo: nat, i: nat, max: nat, cnt: nat)
    requires Preorder(cmp) && 1 <= lo <= i && (max == 2 * i || max == 2 * i + 1) && max <= cnt <= |s| && |r| == |s|
    requires r[i - 1] == s[max - 1] && r[max - 1] == s[i - 1]
    requires forall k :: 0 <= k < |s| && k != i - 1 && k != max - 1 ==> r[k] == s[k]
    requires cmp(s[max - 1], s[i - 1]) >= 0 && HeapAt(cmp, s, max, cnt)
    requires 2 * i <= cnt ==> cmp(s[2 * i - 1], s[max - 1]) <= 0
    requires 2 * i + 1 <= cnt ==> cmp(s[2 * i], s[max - 1]) <= 0
    ensures HeapAt(cmp, r, i, cnt) && Covered(cmp, r, lo, max, cnt)
  {
    assert max / 2 == i;
  }

  lemma SwappedAt<T>(s: seq<T>, i: nat, j: nat)
    requires 1 <= i < j <= |s|
    ensures var r := Swapped(s, i, j);
            && |r| == |s| && r[i - 1] == s[j - 1] && r[j - 1] == s[i - 1]
            && forall k :: 0 <= k < |s| && k != i - 1 && k != j - 1 ==> r[k] == s[k]
  {
  }

  /** Other nodes lose nothing: a child of theirs that changed is larger, or it is the hole's parent. */
  lemma SiftElsewhere<T(!new)>(cmp: Compare<T>, s: seq<T>, r: seq<T>, i: nat, max: nat, j: nat, cnt: nat)
    requires 1 <= i && (max == 2 * i || max == 2 * i + 1) && max <= cnt <= |s| && |r| == |s| && 1 <= j && j != i && j != max
    requires r[i - 1] == s[max - 1] && r[max - 1] == s[i - 1]
    requires forall k :: 0 <= k < |s| && k != i - 1 && k != max - 1 ==> r[k] == s[k]
    requires HeapAt(cmp, s, j, cnt) && (j == i / 2 ==> cmp(s[max - 1], s[j - 1]) <= 0)
    ensures HeapAt(cmp, r, j, cnt)
  {
    assert 2 * j != max && 2 * j + 1 != max;
    if 2 * j <= cnt {
      assert 2 * j == i ==> j == i / 2;
    }
    if 2 * j + 1 <= cnt {
      assert 2 * j + 1 == i ==> j == i / 2;
    }
  }

  lemma {:induction false} RootIsMax<T(!new)>(cmp: Compare<T>, s: seq<T>, cnt: nat, j: nat)
    requires Preorder(cmp) && 1 <= j <= cnt <= |s| && Heap(cmp, s, 1, cnt)
    ensures cmp(s[j - 1], s[0]) <= 0
    decreases j
  {
    if j == 1 {
      Reflexive(cmp, s[0]);
    } else {
      assert 1 <= j / 2 && HeapAt(cmp, s, j / 2, cnt);
      RootIsMax(cmp, s, cnt, j / 2);
    }
  }

  /** Same elements up to `cnt`, the same array behind. */
  ghost predicate SamePrefix<T>(s: seq<T>, r: seq<T>, cnt: nat)
    requires cnt <= |s|
  {
    |r| == |s| && multiset(r[..cnt]) == multiset(s[..cnt]) && r[cnt..] == s[cnt..]
  }

  lemma SwappedPrefix<T>(s: seq<T>, i: nat, j: nat, cnt: nat)
    requires 1 <= i <= cnt && 1 <= j <= cnt <= |s|
    ensures SamePrefix(s, Swapped(s, i, j), cnt)
  {
    SwappedBag(s[..cnt], i, j);
    assert Swapped(s, i, j)[..cnt] == Swapped(s[..cnt], i, j);
  }

  method DoSwap<T>(a: array<T>, i: nat, j: nat)
    requires 1 <= i <= a.Length && 1 <= j <= a.Length
    modifies a
    ensures a[..] == Swapped(old(a[..]), i, j)
  {
    a[i - 1], a[j - 1] := a[j - 1], a[i - 1];
  }

  /** Floats element `i0` down: a heap from its successor on becomes one from it on. */
  method Heapify<T(!new)>(a: array<T>, i0: nat, cnt: nat, cmp: Compare<T>)
    requires Preorder(cmp) && 1 <= i0 && cnt <= a.Length && Heap(cmp, a[..], i0 + 1, cnt)
    modifies a
    ensures Heap(cmp, a[..], i0, cnt) && SamePrefix(old(a[..]), a[..], cnt)
  {
    hide Heap, Swapped, HeapBut, Covered, SamePrefix, Preorder;
    var i := i0;
    HeapStarts(cmp, a[..], i0, cnt);
    SamePrefixItself(a[..], cnt);
    while true
      invariant i0 <= i && HeapBut(cmp, a[..], i0, i, cnt) && Covered(cmp, a[..], i0, i, cnt)
      invariant SamePrefix(old(a[..]), a[..], cnt)
      decreases cnt - i
    {
      var left := 2 * i;
      var right := 2 * i + 1;
      var max := i;
      if left <= cnt && cmp(a[left - 1], a[max - 1]) > 0 {
        max := left;
      }
      if right <= cnt && cmp(a[right - 1], a[max - 1]) > 0 {
        max := right;
      }
      ghost var s := a[..];
      if max == i {
        HeapEnds(cmp, s, i0, i, cnt);
        break;
      }
      MaxOfThree(cmp, s, i, max, cnt);
      SiftStep(cmp, s, i0, i, max, cnt);
      DoSwap(a, i, max);
      SwappedPrefix(s, i, max, cnt);
      SamePrefixTwice(old(a[..]), s, a[..], cnt);
      i := max;
    }
  }

  lemma HeapStarts<T>(cmp: Compare<T>, s: seq<T>, i: nat, cnt: nat)
    requires 1 <= i && cnt <= |s| && Heap(cmp, s, i + 1, cnt)
    ensures HeapBut(cmp, s, i, i, cnt) && Covered(cmp, s, i, i, cnt)
  {
  }

  lemma HeapEnds<T>(cmp: Compare<T>, s: seq<T>, lo: nat, i: nat, cnt: nat)
    requires 1 <= lo <= i && cnt <= |s| && HeapBut(cmp, s, lo, i, cnt)
    requires 2 * i <= cnt ==> cmp(s[2 * i - 1], s[i - 1]) <= 0
    requires 2 * i + 1 <= cnt ==> cmp(s[2 * i], s[i - 1]) <= 0
    ensures Heap(cmp, s, lo, cnt)
  {
    forall j | lo <= j <= cnt
      ensures HeapAt(cmp, s, j, cnt)
    {
    }
  }

  lemma MaxOfThree<T(!new)>(cmp: Compare<T>, s: seq<T>, i: nat, max: nat, cnt: nat)
    requires Preorder(cmp) && 1 <= i && cnt <= |s| && max <= cnt
    requires max == 2 * i || max == 2 * i + 1
    requires max == 2 * i ==> cmp(s[2 * i - 1], s[i - 1]) > 0 && (2 * i + 1 <= cnt ==> cmp(s[2 * i], s[2 * i - 1]) <= 0)
    requires max == 2 * i + 1 ==> cmp(s[2 * i], if cmp(s[2 * i - 1], s[i - 1]) > 0 then s[2 * i - 1] else s[i - 1]) > 0
    ensures cmp(s[max - 1], s[i - 1]) >= 0
    ensures 2 * i <= cnt ==> cmp(s[2 * i - 1], s[max - 1]) <= 0
    ensures 2 * i + 1 <= cnt ==> cmp(s[2 * i], s[max - 1]) <= 0
  {
    Reflexive(cmp, s[max - 1]);
  }

  lemma SamePrefixItself<T>(s: seq<T>, cnt: nat)
    requires cnt <= |s|
    ensures SamePrefix(s, s, cnt)
  {
  }

  lemma SamePrefixTwice<T>(s: seq<T>, r: seq<T>, t: seq<T>, cnt: nat)
    requires cnt <= |s| && SamePrefix(s, r, cnt) && SamePrefix(r, t, cnt)
    ensures SamePrefix(s, t, cnt)
  {
  }

  // ---------------------------------------------------------------- sort

  ghost predicate Sorted<T>(cmp: Compare<T>, s: seq<T>, lo: nat) {
    forall p, q :: lo <= p < q < |s| ==> cmp(s[p], s[q]) <= 0
  }

  /** Everything before position `i` is at most everything from it on, which is sorted. */
  ghost predicate Parted<T>(cmp: Compare<T>, s: seq<T>, i: nat)
    requires i <= |s|
  {
    Sorted(cmp, s, i) && forall p, q :: 0 <= p < i <= q < |s| ==> cmp(s[p], s[q]) <= 0
  }

  /** The root of the heap goes behind it. */
  lemma RootParted<T(!new)>(cmp: Compare<T>, s: seq<T>, i: nat)
    requires Preorder(cmp) && 2 <= i <= |s| && Heap(cmp, s, 1, i) && Parted(cmp, s, i)
    ensures Heap(cmp, Swapped(s, 1, i), 2, i - 1) && Parted(cmp, Swapped(s, 1, i), i - 1)
  {
    hide Swapped, Heap, HeapBut, Parted, Preorder;
    SwappedAt(s, 1, i);
    RootHeap(cmp, s, Swapped(s, 1, i), i, i - 1);
    RootBehind(cmp, s, Swapped(s, 1, i), i);
  }

  lemma RootHeap<T>(cmp: Compare<T>, s: seq<T>, r: seq<T>, i: nat, n: nat)
    requires 2 <= i <= |s| == |r| && n == i - 1 && Heap(cmp, s, 1, i)
    requires forall k :: 0 <= k < |s| && k != 0 && k != i - 1 ==> r[k] == s[k]
    ensures Heap(cmp, r, 2, n)
  {
    forall j | 2 <= j <= n
      ensures HeapAt(cmp, r, j, n)
    {
      assert HeapAt(cmp, s, j, i);
    }
  }

  lemma RootBehind<T(!new)>(cmp: Compare<T>, s: seq<T>, r: seq<T>, i: nat)
    requires Preorder(cmp) && 2 <= i <= |s| == |r| && Heap(cmp, s, 1, i) && Parted(cmp, s, i)
    requires r[0] == s[i - 1] && r[i - 1] == s[0] && forall k :: 0 <= k < |s| && k != 0 && k != i - 1 ==> r[k] == s[k]
    ensures Parted(cmp, r, i - 1)
  {
    forall p | 0 <= p < i
      ensures cmp(s[p], s[0]) <= 0
    {
      RootIsMax(cmp, s, i, p + 1);
    }
    hide Preorder, Heap, HeapBut;
    forall p | 0 <= p < i - 1
      ensures cmp(r[p], r[i - 1]) <= 0
    {
      assert r[p] == s[if p == 0 then i - 1 else p];
    }
  }

  /** Rearranging what lies before position `i` does not matter. */
  lemma PartedStill<T>(cmp: Compare<T>, s: seq<T>, r: seq<T>, i: nat)
    requires i <= |s| && Parted(cmp, s, i) && SamePrefix(s, r, i)
    ensures Parted(cmp, r, i)
  {
    assert forall q :: i <= q < |s| ==> r[q] == r[i..][q - i] == s[i..][q - i] == s[q];
    forall p, q | 0 <= p < i <= q < |r|
      ensures cmp(r[p], r[q]) <= 0
    {
      assert r[..i][p] in multiset(r[..i]);
      assert r[p] in s[..i];
      var k :| 0 <= k < i && s[..i][k] == r[p];
      assert cmp(s[k], s[q]) <= 0;
    }
  }

  lemma PrefixOfAll<T>(s: seq<T>, r: seq<T>, i: nat)
    requires i <= |s| && SamePrefix(s, r, i)
    ensures multiset(r) == multiset(s) && |r| == |s|
  {
    assert s == s[..i] + s[i..] && r == r[..i] + r[i..];
  }

  /** Sorts by building a heap and taking its root again and again. */
  method Sort<T(!new)>(a: array<T>, cmp: Compare<T>)
    requires Preorder(cmp)
    modifies a
    ensures Sorted(cmp, a[..], 0) && multiset(a[..]) == old(multiset(a[..]))
  {
    hide Heap, HeapBut, Parted, SamePrefix, Swapped, Preorder;
    var cnt := a.Length;
    var i := cnt / 2;
    LeavesAreHeap(cmp, a[..], i + 1, cnt);
    while i > 0
      invariant 0 <= i <= cnt && Heap(cmp, a[..], i + 1, cnt) && multiset(a[..]) == old(multiset(a[..]))
    {
      ghost var s := a[..];
      Heapify(a, i, cnt, cmp);
      PrefixOfAll(s, a[..], cnt);
      i := i - 1;
    }
    i := cnt;
    NothingBehind(cmp, a[..]);
    while i > 1
      invariant 0 <= i <= cnt && Heap(cmp, a[..], 1, i) && Parted(cmp, a[..], i) && multiset(a[..]) == old(multiset(a[..]))
    {
      ghost var s := a[..];
      RootParted(cmp, s, i);
      SwappedBag(s, 1, i);
      DoSwap(a, 1, i);
      ghost var r := a[..];
      Heapify(a, 1, i - 1, cmp);
      PrefixOfAll(r, a[..], i - 1);
      PartedStill(cmp, r, a[..], i - 1);
      i := i - 1;
    }
    PartedIsSorted(cmp, a[..], i);
  }

  lemma LeavesAreHeap<T>(cmp: Compare<T>, s: seq<T>, lo: nat, cnt: nat)
    requires cnt <= |s| && lo == cnt / 2 + 1
    ensures Heap(cmp, s, lo, cnt)
  {
  }

  lemma NothingBehind<T>(cmp: Compare<T>, s: seq<T>)
    ensures Parted(cmp, s, |s|)
  {
  }

  lemma PartedIsSorted<T>(cmp: Compare<T>, s: seq<T>, i: nat)
    requires i <= 1 && i <= |s| && Parted(cmp, s, i)
    ensures Sorted(cmp, s, 0)
  {
  }

  // ------------------------------------------------------- binary search

  /** The key compares with elements as an element equivalent to it would. */
  ghost predicate KeyFits<T(!new), K>(cmp: Compare<T>, key: K, cmpKey: (K, T) -> int) {
    forall x, y :: cmp(x, y) <= 0 ==> (cmpKey(key, x) <= 0 ==> cmpKey(key, y) <= 0) && (cmpKey(key, x) < 0 ==> cmpKey(key, y) < 0)
  }

  /** A position that matches the key, or -1 exactly when there is none. */
  method BinarySearch<T(!new), K>(key: K, a: array<T>, ghost cmp: Compare<T>, cmpKey: (K, T) -> int) returns (at: int)
    requires Preorder(cmp) && KeyFits(cmp, key, cmpKey) && Sorted(cmp, a[..], 0)
    ensures at == -1 <==> forall k :: 0 <= k < a.Length ==> cmpKey(key, a[k]) != 0
    ensures at != -1 ==> 0 <= at < a.Length && cmpKey(key, a[at]) == 0
  {
    var first, last := 0, a.Length;
    while first < last
      invariant 0 <= first <= last <= a.Length
      invariant forall k :: 0 <= k < first ==> cmpKey(key, a[k]) > 0
      invariant forall k :: last <= k < a.Length ==> cmpKey(key, a[k]) < 0
    {
      var middle := first + (last - first) / 2;
      var c := cmpKey(key, a[middle]);
      if c < 0 {
        forall k | middle <= k < last
          ensures cmpKey(key, a[k]) < 0
        {
          Reflexive(cmp, a[middle]);
          assert cmp(a[..][middle], a[..][k]) <= 0;
        }
        last := middle;
      } else if c > 0 {
        forall k | first <= k <= middle
          ensures cmpKey(key, a[k]) > 0
        {
          Reflexive(cmp, a[middle]);
          assert cmp(a[..][k], a[..][middle]) <= 0;
        }
        first := middle + 1;
      } else {
        return middle;
      }
    }
    return -1;
  }
}
