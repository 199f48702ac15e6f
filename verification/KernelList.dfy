/** lib/kernel/list.c: doubly linked lists threaded through their elements, and
    the natural merge sort on them.  `ns` is the whole chain, head and tail
    elements included. */
module KernelList {

  class Elem {
    var prev: Elem?
    var next: Elem?

    constructor ()
      ensures prev == null && next == null
    {
      prev := null;
      next := null;
    }
  }

  type Less = (Elem, Elem) -> bool

  /** `next` runs through `ns` and `prev` runs back. */
  ghost predicate Chain(ns: seq<Elem>)
    reads ns
  {
    && 2 <= |ns| && ns[0].prev == null && ns[|ns| - 1].next == null
    && (forall i, j :: 0 <= i < j < |ns| ==> ns[i] != ns[j])
    && (forall i :: 0 <= i < |ns| - 1 ==> ns[i].next == ns[i + 1])
    && (forall i :: 0 < i < |ns| ==> ns[i].prev == ns[i - 1])
  }

  /** `list_next` and `list_prev` of the element at position `i`. */
  method Next(e: Elem, ghost ns: seq<Elem>, ghost i: nat) returns (n: Elem)
    requires Chain(ns) && i + 1 < |ns| && e == ns[i]
    ensures n == ns[i + 1]
  {
    assert e.next == ns[i + 1];
    n := e.next;
  }

  method Prev(e: Elem, ghost ns: seq<Elem>, ghost i: nat) returns (p: Elem)
    requires Chain(ns) && 0 < i < |ns| && e == ns[i]
    ensures p == ns[i - 1]
  {
    assert e.prev == ns[i - 1];
    p := e.prev;
  }

  // -------------------------------------------------------------- splicing

  /** `[i, j)` moved before position `k`, which lies before or behind it. */
  function Spliced<E>(ns: seq<E>, k: nat, i: nat, j: nat): seq<E>
    requires i <= j <= |ns| && k <= |ns| && (k < i || j <= k)
  {
    if k < i then ns[..k] + ns[i..j] + ns[k..i] + ns[j..]
    else ns[..i] + ns[j..k] + ns[i..j] + ns[k..]
  }

  /** Where the element at position `a` of the result stood before. */
  function Origin(a: nat, k: nat, i: nat, j: nat): nat
    requires i <= j && (k < i || j <= k)
  {
    if k < i then
      if a < k then a else if a < k + j - i then a - k + i else if a < j then a - j + i else a
    else
      if a < i then a else if a < i + k - j then a - i + j else if a < k then a - k + j else a
  }

  /** Four pieces, the middle two exchanged. */
  lemma Exchanged<E>(ns: seq<E>, p: nat, q: nat, t: nat)
    requires p <= q <= t <= |ns|
    ensures var r := ns[..p] + ns[q..t] + ns[p..q] + ns[t..];
            && |r| == |ns| && multiset(r) == multiset(ns)
            && forall a :: 0 <= a < |r| ==> r[a] == ns[if a < p || t <= a then a else if a < p + t - q then a - p + q else a - t + q]
  {
    var r := ns[..p] + ns[q..t] + ns[p..q] + ns[t..];
    ExchangedBag(ns, p, q, t);
    forall a | 0 <= a < |r|
      ensures r[a] == ns[if a < p || t <= a then a else if a < p + t - q then a - p + q else a - t + q]
    {
      if p + t - q <= a < t {
        assert r[a] == ns[p..q][a - p - (t - q)];
      }
    }
  }

  lemma ExchangedBag<E>(ns: seq<E>, p: nat, q: nat, t: nat)
    requires p <= q <= t <= |ns|
    ensures multiset(ns[..p] + ns[q..t] + ns[p..q] + ns[t..]) == multiset(ns)
  {
    assert ns == ns[..p] + ns[p..q] + ns[q..t] + ns[t..];
  }

  lemma SplicedAt<E>(ns: seq<E>, k: nat, i: nat, j: nat)
    requires i <= j <= |ns| && k <= |ns| && (k < i || j <= k)
    ensures var r := Spliced(ns, k, i, j);
            && |r| == |ns| && multiset(r) == multiset(ns)
            && forall a :: 0 <= a < |r| ==> Origin(a, k, i, j) < |ns| && r[a] == ns[Origin(a, k, i, j)]
  {
    if k < i {
      Exchanged(ns, k, i, j);
    } else {
      Exchanged(ns, i, j, k);
    }
  }

  /** The links after the stores of `list_splice`, by old positions. */
  function NextOf(a: nat, k: nat, i: nat, j: nat): nat {
    if k == j then a + 1
    else if a + 1 == k then i else if a + 1 == j then k else if a + 1 == i then j else a + 1
  }

  function PrevOf(a: nat, k: nat, i: nat, j: nat): nat
    requires 0 < a && 0 < i && 0 < k && 0 < j
  {
    if k == j then a - 1
    else if a == i then k - 1 else if a == k then j - 1 else if a == j then i - 1 else a - 1
  }

  lemma OriginFollows(a: nat, k: nat, i: nat, j: nat)
    requires 0 < i < j && 0 < k && (k < i || j <= k)
    ensures NextOf(Origin(a, k, i, j), k, i, j) == Origin(a + 1, k, i, j)
    ensures 0 < Origin(a + 1, k, i, j) && PrevOf(Origin(a + 1, k, i, j), k, i, j) == Origin(a, k, i, j)
  {
  }

  ghost predicate Relinked(ns: seq<Elem>, k: nat, i: nat, j: nat)
    requires 0 < i < j < |ns| && 0 < k < |ns|
    reads ns
  {
    && ns[0].prev == null && ns[|ns| - 1].next == null
    && (forall a :: 0 <= a < |ns| - 1 && a + 1 != k && a + 1 != i && a + 1 != j ==> ns[a].next == ns[a + 1])
    && (forall a :: 0 < a < |ns| && a != k && a != i && a != j ==> ns[a].prev == ns[a - 1])
    && if k == j then
         ns[i - 1].next == ns[i] && ns[i].prev == ns[i - 1] && ns[j - 1].next == ns[j] && ns[j].prev == ns[j - 1]
       else
         && ns[k - 1].next == ns[i] && ns[i].prev == ns[k - 1]
         && ns[i - 1].next == ns[j] && ns[j].prev == ns[i - 1]
         && ns[j - 1].next == ns[k] && ns[k].prev == ns[j - 1]
  }

  lemma RelinkedAt(ns: seq<Elem>, k: nat, i: nat, j: nat)
    requires 0 < i < j < |ns| && 0 < k < |ns| && Relinked(ns, k, i, j)
    ensures ns[0].prev == null && ns[|ns| - 1].next == null
    ensures forall a :: 0 <= a < |ns| - 1 ==> NextOf(a, k, i, j) < |ns| && ns[a].next == ns[NextOf(a, k, i, j)]
    ensures forall a :: 0 < a < |ns| ==> ns[a].prev == ns[PrevOf(a, k, i, j)]
  {
  }

  lemma RelinkedIsChain(ns: seq<Elem>, k: nat, i: nat, j: nat)
    requires 0 < i < j < |ns| && 0 < k < |ns| && (k < i || j <= k) && Relinked(ns, k, i, j)
    requires forall a, b :: 0 <= a < b < |ns| ==> ns[a] != ns[b]
    ensures Chain(Spliced(ns, k, i, j))
  {
    hide Spliced, Relinked;
    SplicedAt(ns, k, i, j);
    RelinkedAt(ns, k, i, j);
    var r := Spliced(ns, k, i, j);
    forall a, b | 0 <= a < b < |r|
      ensures r[a] != r[b]
    {
      assert Origin(a, k, i, j) != Origin(b, k, i, j);
    }
    forall a | 0 <= a < |r| - 1
      ensures r[a].next == r[a + 1] && r[a + 1].prev == r[a]
    {
      OriginFollows(a, k, i, j);
    }
  }

  /** The chain with `[i, j)` bypassed. */
  ghost predicate Bypassed(ns: seq<Elem>, i: nat, j: nat)
    requires 0 < i < j < |ns|
    reads ns
  {
    && ns[0].prev == null && ns[|ns| - 1].next == null
    && (forall a, b :: 0 <= a < b < |ns| ==> ns[a] != ns[b])
    && (forall a :: 0 <= a < |ns| - 1 && a != i - 1 ==> ns[a].next == ns[a + 1])
    && (forall a :: 0 < a < |ns| && a != j ==> ns[a].prev == ns[a - 1])
    && ns[i - 1].next == ns[j] && ns[j].prev == ns[i - 1]
  }

  method Bypass(first: Elem, final: Elem, ghost ns: seq<Elem>, ghost i: nat, ghost j: nat)
    requires Chain(ns) && 0 < i < j < |ns| && first == ns[i] && final == ns[j - 1]
    modifies ns
    ensures Bypassed(ns, i, j)
  {
    assert first.prev == ns[i - 1] && final.next == ns[j];
    first.prev.next := final.next;
    final.next.prev := first.prev;
  }

  /** The bypassed stretch points to its new neighbours, which do not point back yet. */
  ghost predicate Aimed(ns: seq<Elem>, k: nat, i: nat, j: nat)
    requires 0 < i < j < |ns| && 0 < k < |ns|
    reads ns
  {
    && ns[0].prev == null && ns[|ns| - 1].next == null
    && (forall a, b :: 0 <= a < b < |ns| ==> ns[a] != ns[b])
    && (forall a :: 0 <= a < |ns| - 1 && a + 1 != i && a + 1 != j ==> ns[a].next == ns[a + 1])
    && (forall a :: 0 < a < |ns| && a != i && a != j ==> ns[a].prev == ns[a - 1])
    && ns[i - 1].next == ns[j] && ns[j].prev == ns[i - 1]
    && ns[i].prev == ns[if k == j then i - 1 else k - 1] && ns[j - 1].next == ns[k]
  }

  method Aim(before: Elem, first: Elem, final: Elem, ghost ns: seq<Elem>, ghost k: nat, ghost i: nat, ghost j: nat)
    requires 0 < i < j < |ns| && Bypassed(ns, i, j) && 0 < k < |ns| && (k < i || j <= k)
    requires before == ns[k] && first == ns[i] && final == ns[j - 1]
    modifies ns
    ensures Aimed(ns, k, i, j)
  {
    assert before.prev == ns[if k == j then i - 1 else k - 1];
    first.prev := before.prev;
    final.next := before;
  }

  method Attach(before: Elem, first: Elem, final: Elem, ghost ns: seq<Elem>, ghost k: nat, ghost i: nat, ghost j: nat)
    requires 0 < i < j < |ns| && Bypassed(ns, i, j) && 0 < k < |ns| && (k < i || j <= k)
    requires before == ns[k] && first == ns[i] && final == ns[j - 1]
    modifies ns
    ensures Relinked(ns, k, i, j)
  {
    Aim(before, first, final, ns, k, i, j);
    assert before.prev == ns[if k == j then i - 1 else k - 1];
    before.prev.next := first;
    before.prev := final;
  }

  /** Moves `first` up to `last` (exclusive) in front of `before`. */
  method Splice(before: Elem, first: Elem, last: Elem, ghost ns: seq<Elem>, ghost k: nat, ghost i: nat, ghost j: nat)
    requires Chain(ns) && 0 < i <= j < |ns| && 0 < k < |ns| && (k < i || j <= k)
    requires before == ns[k] && first == ns[i] && last == ns[j]
    modifies ns
    ensures Chain(Spliced(ns, k, i, j))
  {
    if first == last {
      assert i == j;
      assert Spliced(ns, k, i, j) == ns;
      return;
    }
    assert last.prev == ns[j - 1];
    var final := last.prev;
    Bypass(first, final, ns, i, j);
    Attach(before, first, final, ns, k, i, j);
    hide Spliced;
    RelinkedIsChain(ns, k, i, j);
  }

  // ------------------------------------------------- order, runs, stability

  /** `less` is a strict weak order on `D`. */
  ghost predicate Ordering(less: Less, D: set<Elem>) {
    && (forall x, y :: x in D && y in D && less(x, y) ==> !less(y, x))
    && (forall x, y, z :: x in D && y in D && z in D && !less(y, x) && !less(z, y) ==> !less(z, x))
  }

  ghost predicate Within(ns: seq<Elem>, lo: nat, hi: nat, D: set<Elem>)
    requires hi <= |ns|
  {
    forall a :: lo <= a < hi ==> ns[a] in D
  }

  ghost predicate SortedIn(less: Less, ns: seq<Elem>, lo: nat, hi: nat)
    requires hi <= |ns|
  {
    forall a, b :: lo <= a < b < hi ==> !less(ns[b], ns[a])
  }

  ghost predicate Before(ns: seq<Elem>, x: Elem, y: Elem) {
    exists i, j :: 0 <= i < j < |ns| && ns[i] == x && ns[j] == y
  }

  /** The same elements, and only pairs that were out of order have changed places. */
  ghost predicate Stable(less: Less, ns: seq<Elem>, ns': seq<Elem>) {
    && multiset(ns') == multiset(ns)
    && forall i, j :: 0 <= i < j < |ns| && !less(ns[j], ns[i]) ==> Before(ns', ns[i], ns[j])
  }

  lemma StableTwice(less: Less, a: seq<Elem>, b: seq<Elem>, c: seq<Elem>)
    requires Stable(less, a, b) && Stable(less, b, c)
    ensures Stable(less, a, c)
  {
    forall i, j | 0 <= i < j < |a| && !less(a[j], a[i])
      ensures Before(c, a[i], a[j])
    {
      assert Before(b, a[i], a[j]);
      var i', j' :| 0 <= i' < j' < |b| && b[i'] == a[i] && b[j'] == a[j];
    }
  }

  lemma StableSame(less: Less, a: seq<Elem>)
    ensures Stable(less, a, a)
  {
  }

  /** `r` is `ns` with element `q` moved to position `p`. */
  ghost predicate Moved(ns: seq<Elem>, p: nat, q: nat, r: seq<Elem>) {
    && p < q < |ns| && |r| == |ns| && r[p] == ns[q]
    && (forall a :: 0 <= a < p ==> r[a] == ns[a])
    && (forall a {:trigger r[a]} :: p < a <= q ==> r[a] == ns[a - 1])
    && (forall a :: q < a < |r| ==> r[a] == ns[a])
  }

  lemma MovedTo(ns: seq<Elem>, p: nat, q: nat)
    requires p < q < |ns|
    ensures Moved(ns, p, q, Spliced(ns, p, q, q + 1))
  {
    hide Spliced;
    SplicedAt(ns, p, q, q + 1);
  }

  /** An element moves back over larger ones only. */
  lemma StableMove(less: Less, ns: seq<Elem>, k: nat, i: nat)
    requires k < i < |ns| && forall a :: k <= a < i ==> less(ns[i], ns[a])
    ensures Stable(less, ns, Spliced(ns, k, i, i + 1))
  {
    hide Spliced;
    var r := Spliced(ns, k, i, i + 1);
    SplicedAt(ns, k, i, i + 1);
    MovedTo(ns, k, i);
    hide Origin, Before;
    forall p, q | 0 <= p < q < |ns| && !less(ns[q], ns[p])
      ensures Before(r, ns[p], ns[q])
    {
      var p' := Landing(ns, k, i, r, p);
      var q' := Landing(ns, k, i, r, q);
      IsBefore(r, p', q');
    }
  }

  lemma IsBefore(r: seq<Elem>, p: nat, q: nat)
    requires p < q < |r|
    ensures Before(r, r[p], r[q])
  {
  }

  lemma Landing(ns: seq<Elem>, k: nat, i: nat, r: seq<Elem>, p: nat) returns (p': nat)
    requires Moved(ns, k, i, r) && p < |ns|
    ensures p' == (if k <= p < i then p + 1 else if p == i then k else p) && p' < |r| && r[p'] == ns[p]
  {
    p' := if k <= p < i then p + 1 else if p == i then k else p;
  }

  /** There is only one stable sorted arrangement. */
  lemma StableSortIsUnique(less: Less, s: seq<Elem>, r: seq<Elem>, t: seq<Elem>)
    requires forall i, j :: 0 <= i < j < |s| ==> s[i] != s[j]
    requires Stable(less, s, r) && SortedIn(less, r, 0, |r|) && Stable(less, s, t) && SortedIn(less, t, 0, |t|)
    requires forall i, j :: 0 <= i < j < |r| ==> r[i] != r[j]
    requires forall i, j :: 0 <= i < j < |t| ==> t[i] != t[j]
    ensures r == t
  {
    SameSize(s, r);
    SameSize(s, t);
    var n := 0;
    while n < |r|
      invariant n <= |r| && r[..n] == t[..n]
    {
      if r[n] != t[n] {
        var x, y := r[n], t[n];
        LaterIn(r, t, n);
        LaterIn(t, r, n);
        var q :| n < q < |r| && r[q] == y;
        OrderAgrees(less, s, r, t, n, q);
        assert false;
      }
      n := n + 1;
    }
  }

  lemma SameSize(s: seq<Elem>, r: seq<Elem>)
    requires multiset(s) == multiset(r)
    ensures |s| == |r|
  {
    assert |multiset(s)| == |s| && |multiset(r)| == |r|;
  }

  lemma LaterIn(r: seq<Elem>, t: seq<Elem>, n: nat)
    requires multiset(r) == multiset(t) && n < |r| == |t| && r[..n] == t[..n] && r[n] != t[n]
    requires forall i, j :: 0 <= i < j < |r| ==> r[i] != r[j]
    ensures exists p :: n < p < |t| && t[p] == r[n]
  {
    assert r[n] in multiset(r);
    assert r[n] in t;
    assert forall p :: 0 <= p < n ==> r[p] == t[p] by {
      assert forall p :: 0 <= p < n ==> r[..n][p] == r[p] && t[..n][p] == t[p];
    }
  }

  /** Two stable sorted arrangements agree on the order of any two elements. */
  lemma OrderAgrees(less: Less, s: seq<Elem>, r: seq<Elem>, t: seq<Elem>, i: nat, j: nat)
    requires Stable(less, s, r) && SortedIn(less, r, 0, |r|) && Stable(less, s, t) && SortedIn(less, t, 0, |t|)
    requires forall i, j :: 0 <= i < j < |r| ==> r[i] != r[j]
    requires i < j < |r|
    ensures Before(t, r[i], r[j])
  {
    var x, y := r[i], r[j];
    assert x in multiset(r) && y in multiset(r);
    assert x in s && y in s && x in t && y in t by {
      assert x in multiset(s) && y in multiset(s) && x in multiset(t) && y in multiset(t);
    }
    var a :| 0 <= a < |s| && s[a] == x;
    var b :| 0 <= b < |s| && s[b] == y;
    assert b < a && !less(x, y) ==> Before(r, y, x);
    var c :| 0 <= c < |t| && t[c] == x;
    var d :| 0 <= d < |t| && t[d] == y;
    assert c < d ==> Before(t, x, y);
  }

  /** The number of maximal nondecreasing runs in `[lo, hi)`. */
  ghost function Runs(less: Less, ns: seq<Elem>, lo: nat, hi: nat): (n: nat)
    requires hi <= |ns|
    ensures n <= if lo < hi then hi - lo else 0
    ensures lo < hi ==> 1 <= n
    decreases hi
  {
    if hi <= lo then 0
    else if hi == lo + 1 then 1
    else Runs(less, ns, lo, hi - 1) + if less(ns[hi - 1], ns[hi - 2]) then 1 else 0
  }

  lemma {:induction false} RunsSplit(less: Less, ns: seq<Elem>, lo: nat, m: nat, hi: nat)
    requires lo < m < hi <= |ns|
    ensures Runs(less, ns, lo, hi) == Runs(less, ns, lo, m) + Runs(less, ns, m, hi) - if less(ns[m], ns[m - 1]) then 0 else 1
    decreases hi
  {
    if m + 1 < hi {
      RunsSplit(less, ns, lo, m, hi - 1);
    }
  }

  lemma {:induction false} RunsSame(less: Less, ns: seq<Elem>, ns': seq<Elem>, lo: nat, hi: nat)
    requires hi <= |ns| && hi <= |ns'| && forall a :: lo <= a < hi ==> ns[a] == ns'[a]
    ensures Runs(less, ns, lo, hi) == Runs(less, ns', lo, hi)
    decreases hi
  {
    if lo < hi {
      RunsSame(less, ns, ns', lo, hi - 1);
    }
  }

  lemma {:induction false} RunsShift(less: Less, ns: seq<Elem>, s: seq<Elem>, hi: nat)
    requires hi <= |s| && |ns| == |s| + 2 && forall a :: 0 <= a < |s| ==> ns[a + 1] == s[a]
    ensures Runs(less, ns, 1, hi + 1) == Runs(less, s, 0, hi)
    decreases hi
  {
    if 0 < hi {
      RunsShift(less, ns, s, hi - 1);
    }
  }

  lemma {:induction false} SortedIsOneRun(less: Less, ns: seq<Elem>, lo: nat, hi: nat)
    requires lo < hi <= |ns| && SortedIn(less, ns, lo, hi)
    ensures Runs(less, ns, lo, hi) == 1
    decreases hi
  {
    if lo + 1 < hi {
      SortedIsOneRun(less, ns, lo, hi - 1);
    }
  }

  lemma {:induction false} OneRunIsSorted(less: Less, ns: seq<Elem>, lo: nat, hi: nat, D: set<Elem>)
    requires hi <= |ns| && Runs(less, ns, lo, hi) <= 1 && Ordering(less, D) && Within(ns, lo, hi, D)
    ensures SortedIn(less, ns, lo, hi)
    decreases hi
  {
    hide Ordering, SortedIn;
    if hi <= lo + 1 {
      ShortIsSorted(less, ns, lo, hi);
    } else {
      assert Runs(less, ns, lo, hi - 1) == 1;
      OneRunIsSorted(less, ns, lo, hi - 1, D);
      SortedLonger(less, ns, lo, hi - 1, D);
    }
  }

  lemma ShortIsSorted(less: Less, ns: seq<Elem>, lo: nat, hi: nat)
    requires hi <= |ns| && hi <= lo + 1
    ensures SortedIn(less, ns, lo, hi)
  {
  }

  /** A sorted stretch goes on while the next element is not less than its last. */
  lemma SortedLonger(less: Less, ns: seq<Elem>, lo: nat, hi: nat, D: set<Elem>)
    requires lo < hi < |ns| && SortedIn(less, ns, lo, hi) && !less(ns[hi], ns[hi - 1])
    requires Ordering(less, D) && Within(ns, lo, hi + 1, D)
    ensures SortedIn(less, ns, lo, hi + 1)
  {
    forall a | lo <= a < hi
      ensures !less(ns[hi], ns[a])
    {
      assert a < hi - 1 ==> !less(ns[hi - 1], ns[a]);
      assert ns[a] in D && ns[hi - 1] in D && ns[hi] in D;
    }
  }

  lemma WithinPart(ns: seq<Elem>, lo: nat, m: nat, hi: nat, D: set<Elem>)
    requires m <= hi <= |ns| && Within(ns, lo, hi, D)
    ensures Within(ns, lo, m, D)
  {
  }

  // ---------------------------------------------------------- merge sort

  /** The end of the run that starts at `a0`; `b` bounds the search. */
  method FindEndOfRun(a0: Elem, b: Elem, less: Less, ghost ns: seq<Elem>, ghost i: nat, ghost n: nat, ghost D: set<Elem>)
    returns (a: Elem, ghost m: nat)
    requires Chain(ns) && i < n < |ns| && a0 == ns[i] && b == ns[n]
    requires Ordering(less, D) && Within(ns, i, n, D)
    ensures i < m <= n && a == ns[m] && SortedIn(less, ns, i, m)
    ensures m < n ==> less(ns[m], ns[m - 1])
  {
    hide Ordering, SortedIn, Within;
    assert a0.next == ns[i + 1];
    a := a0.next;
    m := i + 1;
    ShortIsSorted(less, ns, i, m);
    var p := Prev(a, ns, m);
    while a != b && !less(a, p)
      invariant i < m <= n && a == ns[m] && p == ns[m - 1] && SortedIn(less, ns, i, m)
      decreases n - m
    {
      WithinPart(ns, i, m + 1, n, D);
      SortedLonger(less, ns, i, m, D);
      p := a;
      a := Next(a, ns, m);
      m := m + 1;
    }
    assert m < n ==> ns[m] != ns[n];
  }

  /** Where a merge stands: `[lo, p)` is merged, `[p, q)` and `[q, hi)` are what is left of the runs. */
  ghost predicate Merging(less: Less, ns: seq<Elem>, lo: nat, p: nat, q: nat, hi: nat) {
    && 0 < lo <= p <= q <= hi < |ns|
    && SortedIn(less, ns, lo, q) && SortedIn(less, ns, q, hi)
    && forall a, b :: lo <= a < p && q <= b < hi ==> !less(ns[b], ns[a])
  }

  lemma MergeAdvance(less: Less, ns: seq<Elem>, lo: nat, p: nat, q: nat, hi: nat, D: set<Elem>)
    requires Merging(less, ns, lo, p, q, hi) && p < q < hi && !less(ns[q], ns[p])
    requires Ordering(less, D) && Within(ns, lo, hi, D)
    ensures Merging(less, ns, lo, p + 1, q, hi)
  {
    forall b | q <= b < hi
      ensures !less(ns[b], ns[p])
    {
      assert b != q ==> !less(ns[b], ns[q]);
      assert ns[b] in D && ns[q] in D && ns[p] in D;
    }
  }

  /** The second run's first element goes in front of the first run's rest. */
  lemma MergeMove(less: Less, ns: seq<Elem>, lo: nat, p: nat, q: nat, hi: nat, D: set<Elem>)
    requires Merging(less, ns, lo, p, q, hi) && p < q < hi && less(ns[q], ns[p])
    requires Ordering(less, D) && Within(ns, lo, hi, D)
    ensures var r := Spliced(ns, p, q, q + 1);
            && Merging(less, r, lo, p + 1, q + 1, hi) && Stable(less, ns, r) && Within(r, lo, hi, D)
            && |r| == |ns| && (forall a :: 0 <= a < |r| && !(p <= a <= q) ==> r[a] == ns[a]) && r[p + 1] == ns[p]
  {
    forall a | p <= a < q
      ensures less(ns[q], ns[a]) && !less(ns[a], ns[q])
    {
      assert p < a ==> !less(ns[a], ns[p]);
      assert ns[a] in D && ns[p] in D && ns[q] in D;
    }
    hide Ordering, Stable, Spliced, Merging;
    StableMove(less, ns, p, q);
    MovedTo(ns, p, q);
    var r := Spliced(ns, p, q, q + 1);
    MovedSorted(less, ns, lo, p, q, hi, r);
    MovedWithin(ns, lo, p, q, hi, r, D);
  }

  lemma MovedWithin(ns: seq<Elem>, lo: nat, p: nat, q: nat, hi: nat, r: seq<Elem>, D: set<Elem>)
    requires Moved(ns, p, q, r) && lo <= p && q < hi <= |ns| && Within(ns, lo, hi, D)
    ensures Within(r, lo, hi, D)
  {
  }

  lemma MovedSorted(less: Less, ns: seq<Elem>, lo: nat, p: nat, q: nat, hi: nat, r: seq<Elem>)
    requires Merging(less, ns, lo, p, q, hi) && q < hi && Moved(ns, p, q, r)
    requires forall a :: p <= a < q ==> !less(ns[a], ns[q])
    ensures Merging(less, r, lo, p + 1, q + 1, hi)
  {
    assert SortedIn(less, r, lo, q + 1) by {
      forall a, b | lo <= a < b < q + 1
        ensures !less(r[b], r[a])
      {
        var a' := if a < p then a else if a == p then q else a - 1;
        var b' := if b < p then b else if b == p then q else b - 1;
        assert r[a] == ns[a'] && r[b] == ns[b'];
      }
    }
  }

  /** Takes `a1b0` out and puts it in front of `a0`; the result is what followed it. */
  method MoveBack(a0: Elem, a1b0: Elem, ghost ns: seq<Elem>, ghost p: nat, ghost q: nat) returns (next: Elem)
    requires Chain(ns) && 0 < p < q && q + 1 < |ns| && a0 == ns[p] && a1b0 == ns[q]
    modifies ns
    ensures Chain(Spliced(ns, p, q, q + 1)) && next == ns[q + 1]
  {
    hide Spliced;
    next := Next(a1b0, ns, q);
    var e := Prev(next, ns, q + 1);
    Splice(a0, e, next, ns, p, q, q + 1);
  }

  /** Merges the runs `[lo, mid)` and `[mid, hi)`. */
  method InplaceMerge(x: Elem, y: Elem, b1: Elem, less: Less,
                      ghost ns: seq<Elem>, ghost lo: nat, ghost mid: nat, ghost hi: nat, ghost D: set<Elem>)
    returns (ghost r: seq<Elem>)
    requires Chain(ns) && 0 < lo < mid < hi < |ns| && x == ns[lo] && y == ns[mid] && b1 == ns[hi]
    requires SortedIn(less, ns, lo, mid) && SortedIn(less, ns, mid, hi) && Ordering(less, D) && Within(ns, lo, hi, D)
    modifies ns
    ensures Chain(r) && Stable(less, ns, r) && |r| == |ns| && SortedIn(less, r, lo, hi) && Within(r, lo, hi, D)
    ensures forall a :: 0 <= a < |r| && !(lo <= a < hi) ==> r[a] == ns[a]
  {
    hide Spliced, Stable, SortedIn, Ordering, Within, Merging;
    var a0, a1b0 := x, y;
    ghost var p, q := lo, mid;
    r := ns;
    StableSame(less, ns);
    MergeStarts(less, ns, lo, mid, hi);
    while a0 != a1b0 && a1b0 != b1
      invariant Chain(r) && lo <= p <= q <= hi < |r| && Merging(less, r, lo, p, q, hi) && a0 == r[p] && a1b0 == r[q] && b1 == r[hi]
      invariant Stable(less, ns, r) && |r| == |ns| && Within(r, lo, hi, D)
      invariant forall a :: 0 <= a < |r| && !(lo <= a < hi) ==> r[a] == ns[a]
      decreases hi - q, q - p
    {
      if !less(a1b0, a0) {
        MergeAdvance(less, r, lo, p, q, hi, D);
        a0 := Next(a0, r, p);
        p := p + 1;
      } else {
        MergeMove(less, r, lo, p, q, hi, D);
        SameElements(less, ns, r);
        a1b0 := MoveBack(a0, a1b0, r, p, q);
        StableTwice(less, ns, r, Spliced(r, p, q, q + 1));
        r := Spliced(r, p, q, q + 1);
        p, q := p + 1, q + 1;
      }
    }
    MergeEnds(less, r, lo, p, q, hi);
  }

  lemma MergeStarts(less: Less, ns: seq<Elem>, lo: nat, mid: nat, hi: nat)
    requires 0 < lo < mid < hi < |ns| && SortedIn(less, ns, lo, mid) && SortedIn(less, ns, mid, hi)
    ensures Merging(less, ns, lo, lo, mid, hi)
  {
  }

  lemma MergeEnds(less: Less, ns: seq<Elem>, lo: nat, p: nat, q: nat, hi: nat)
    requires Merging(less, ns, lo, p, q, hi) && (p == q || q == hi)
    ensures SortedIn(less, ns, lo, hi)
  {
  }

  lemma SameElements(less: Less, ns: seq<Elem>, r: seq<Elem>)
    requires Stable(less, ns, r)
    ensures forall i :: 0 <= i < |r| ==> r[i] in ns
  {
    forall i | 0 <= i < |r|
      ensures r[i] in ns
    {
      assert r[i] in multiset(r);
      assert r[i] in multiset(ns);
    }
  }

  /** Two whole runs from `p` to `b` are two of the runs from `p` to `n`. */
  lemma TwoRuns(less: Less, ns: seq<Elem>, p: nat, m: nat, b: nat, n: nat)
    requires p < m < b <= n <= |ns| && SortedIn(less, ns, p, m) && SortedIn(less, ns, m, b)
    requires less(ns[m], ns[m - 1]) && (b < n ==> less(ns[b], ns[b - 1]))
    ensures Runs(less, ns, p, n) == 2 + Runs(less, ns, b, n)
  {
    SortedIsOneRun(less, ns, p, m);
    SortedIsOneRun(less, ns, m, b);
    RunsSplit(less, ns, p, m, b);
    if b < n {
      RunsSplit(less, ns, p, b, n);
    }
  }

  /** Merged, they are at most one more run behind what lies before. */
  lemma OneRunMore(less: Less, ns: seq<Elem>, r: seq<Elem>, p: nat, b: nat, n: nat)
    requires 1 <= p < b <= n < |ns| == |r| && SortedIn(less, r, p, b)
    requires forall a :: 0 <= a < |r| && !(p <= a < b) ==> r[a] == ns[a]
    ensures Runs(less, r, 1, b) <= Runs(less, ns, 1, p) + 1 && Runs(less, r, b, n) == Runs(less, ns, b, n)
  {
    SortedIsOneRun(less, r, p, b);
    RunsSame(less, ns, r, 1, p);
    RunsSame(less, ns, r, b, n);
    if 1 < p {
      RunsSplit(less, r, 1, p, b);
    }
  }

  /** `r` is a stage of sorting the interior of `ns`. */
  ghost predicate Stage(less: Less, ns: seq<Elem>, r: seq<Elem>, D: set<Elem>) {
    && 2 <= |ns| == |r| && Stable(less, ns, r) && r[0] == ns[0] && r[|r| - 1] == ns[|ns| - 1]
    && Within(r, 1, |r| - 1, D)
  }

  lemma NextStage(less: Less, ns: seq<Elem>, r: seq<Elem>, t: seq<Elem>, D: set<Elem>, lo: nat, hi: nat)
    requires Stage(less, ns, r, D) && Stable(less, r, t) && |t| == |r| && 1 <= lo <= hi < |r|
    requires Within(t, lo, hi, D) && forall a :: 0 <= a < |t| && !(lo <= a < hi) ==> t[a] == r[a]
    ensures Stage(less, ns, t, D)
  {
    StableTwice(less, ns, r, t);
  }

  /** One pass over the list: adjacent runs are merged two by two. */
  method MergePass(head: Elem, tail: Elem, less: Less, ghost ns: seq<Elem>, ghost D: set<Elem>)
    returns (outputRunCnt: nat, ghost r: seq<Elem>)
    requires Chain(ns) && head == ns[0] && tail == ns[|ns| - 1] && Ordering(less, D) && Within(ns, 1, |ns| - 1, D)
    modifies ns
    ensures Chain(r) && Stage(less, ns, r, D) && |r| == |ns| && r[0] == ns[0] && r[|r| - 1] == ns[|ns| - 1]
    ensures outputRunCnt == (Runs(less, ns, 1, |ns| - 1) + 1) / 2 && Runs(less, r, 1, |r| - 1) <= outputRunCnt
  {
    hide Stable, SortedIn, Ordering, Within, Runs, Stage;
    outputRunCnt := 0;
    r := ns;
    ghost var n := |ns| - 1;
    ghost var p := 1;
    FirstStage(less, ns, D);
    NoRuns(less, ns, 1);
    var a0 := Next(head, ns, 0);
    while a0 != tail
      invariant Chain(r) && Stage(less, ns, r, D) && |r| == n + 1 && 1 <= p <= n && a0 == r[p] && tail == r[n]
      invariant Runs(less, r, 1, p) <= outputRunCnt
      invariant Runs(less, r, p, n) + 2 * outputRunCnt == Runs(less, ns, 1, n)
      decreases n - p
    {
      outputRunCnt := outputRunCnt + 1;
      StageParts(less, ns, r, D, p);
      var a1b0, m := FindEndOfRun(a0, tail, less, r, p, n, D);
      if a1b0 == tail {
        assert m == n;
        LastRun(less, r, p, n);
        break;
      }
      assert m != n;
      StageParts(less, ns, r, D, m);
      var b1, b := FindEndOfRun(a1b0, tail, less, r, m, n, D);
      StagePart(less, ns, r, D, p, b);
      ghost var t := InplaceMerge(a0, a1b0, b1, less, r, p, m, b, D);
      TwoRuns(less, r, p, m, b, n);
      OneRunMore(less, r, t, p, b, n);
      NextStage(less, ns, r, t, D, p, b);
      r := t;
      a0 := b1;
      p := b;
    }
    NoRuns(less, r, n);
    StageParts(less, ns, r, D, 1);
  }

  lemma FirstStage(less: Less, ns: seq<Elem>, D: set<Elem>)
    requires 2 <= |ns| && Within(ns, 1, |ns| - 1, D)
    ensures Stage(less, ns, ns, D)
  {
    StableSame(less, ns);
  }

  lemma NoRuns(less: Less, ns: seq<Elem>, p: nat)
    requires p <= |ns|
    ensures Runs(less, ns, p, p) == 0
  {
  }

  lemma LastRun(less: Less, r: seq<Elem>, p: nat, n: nat)
    requires 1 <= p < n < |r| && SortedIn(less, r, p, n)
    ensures Runs(less, r, p, n) == 1 && Runs(less, r, 1, n) <= Runs(less, r, 1, p) + 1
  {
    SortedIsOneRun(less, r, p, n);
    if 1 < p {
      RunsSplit(less, r, 1, p, n);
    }
  }

  lemma StageParts(less: Less, ns: seq<Elem>, r: seq<Elem>, D: set<Elem>, p: nat)
    requires Stage(less, ns, r, D) && 1 <= p < |r|
    ensures Within(r, p, |r| - 1, D) && r[0] == ns[0] && r[|r| - 1] == ns[|ns| - 1]
    ensures forall i :: 0 <= i < |r| ==> r[i] in ns
  {
    SameElements(less, ns, r);
  }

  lemma StagePart(less: Less, ns: seq<Elem>, r: seq<Elem>, D: set<Elem>, p: nat, q: nat)
    requires Stage(less, ns, r, D) && 1 <= p <= q < |r|
    ensures Within(r, p, q, D)
  {
  }

  ghost function Pow2(k: nat): nat {
    if k == 0 then 1 else 2 * Pow2(k - 1)
  }

  ghost function Ring(head: Elem, s: seq<Elem>, tail: Elem): seq<Elem> {
    [head] + s + [tail]
  }

  ghost function Interior(ns: seq<Elem>): seq<Elem>
    requires 2 <= |ns|
  {
    ns[1..|ns| - 1]
  }

  lemma RingParts(head: Elem, s: seq<Elem>, tail: Elem)
    ensures var ns := Ring(head, s, tail);
            && |ns| == |s| + 2 && ns[0] == head && ns[|ns| - 1] == tail && Interior(ns) == s
            && forall i :: 0 <= i < |s| ==> ns[i + 1] == s[i]
  {
  }

  lemma RingAgain(ns: seq<Elem>)
    requires 2 <= |ns|
    ensures Ring(ns[0], Interior(ns), ns[|ns| - 1]) == ns
  {
  }

  lemma InteriorBag(ns: seq<Elem>)
    requires 2 <= |ns|
    ensures multiset(Interior(ns)) == multiset(ns) - multiset{ns[0], ns[|ns| - 1]}
  {
    assert ns == [ns[0]] + Interior(ns) + [ns[|ns| - 1]];
  }

  lemma InteriorStable(less: Less, ns: seq<Elem>, r: seq<Elem>)
    requires 2 <= |ns| == |r| && Stable(less, ns, r) && r[0] == ns[0] && r[|r| - 1] == ns[|ns| - 1]
    requires forall i, j :: 0 <= i < j < |ns| ==> ns[i] != ns[j]
    ensures Stable(less, Interior(ns), Interior(r))
  {
    var s, s' := Interior(ns), Interior(r);
    InteriorBag(ns);
    InteriorBag(r);
    assert multiset(s') == multiset(s);
    forall i, j | 0 <= i < j < |s| && !less(s[j], s[i])
      ensures Before(s', s[i], s[j])
    {
      assert s[i] == ns[i + 1] && s[j] == ns[j + 1];
      assert Before(r, ns[i + 1], ns[j + 1]);
      var p, q :| 0 <= p < q < |r| && r[p] == ns[i + 1] && r[q] == ns[j + 1];
      assert p != 0 && q != |r| - 1;
      assert s'[p - 1] == s[i] && s'[q - 1] == s[j];
    }
  }

  lemma InteriorSorted(less: Less, r: seq<Elem>)
    requires 2 <= |r| && SortedIn(less, r, 1, |r| - 1)
    ensures SortedIn(less, Interior(r), 0, |r| - 2)
  {
  }

  /** After `k` passes over `first` runs at most `out` are left: each pass halves them, rounded up. */
  ghost predicate Halved(k: nat, first: nat, out: nat) {
    Pow2(k) * (out as int - 1) < first
  }

  lemma PassCount(k: nat, runs: nat, first: nat, out: nat, out': nat)
    requires Halved(k, first, out) && runs <= out && out' == (runs + 1) / 2 && 1 < out
    ensures Halved(k + 1, first, out') && out' < out && Pow2(k) < first
  {
    var p, x, y := Pow2(k), out as int - 1, out' as int - 1;
    assert 2 * y <= x && 1 <= x;
    AtMost(p, 2 * y, x);
    AtMost(p, 1, x);
    assert Pow2(k + 1) * y == p * (2 * y) by {
      Doubling(p, y);
    }
  }

  lemma AtMost(p: nat, x: int, y: int)
    requires x <= y
    ensures p * x <= p * y
  {
  }

  lemma Doubling(p: int, y: int)
    ensures 2 * p * y == p * (2 * y)
  {
  }

  lemma FirstPass(runs: nat, out: nat)
    requires out == (runs + 1) / 2
    ensures Halved(1, runs, out)
  {
    assert Pow2(1) == 2;
  }

  lemma Starting(less: Less, head: Elem, s: seq<Elem>, tail: Elem, D: set<Elem>)
    requires D == (set e | e in s)
    ensures var ns := Ring(head, s, tail);
            && |ns| == |s| + 2 && ns[0] == head && ns[|ns| - 1] == tail && Within(ns, 1, |ns| - 1, D)
            && Runs(less, ns, 1, |ns| - 1) == Runs(less, s, 0, |s|)
  {
    RingParts(head, s, tail);
    hide Ring;
    var ns := Ring(head, s, tail);
    forall a | 1 <= a < |ns| - 1
      ensures ns[a] in D
    {
      assert ns[a - 1 + 1] == s[a - 1];
    }
    RunsShift(less, ns, s, |s|);
  }

  lemma StageTwice(less: Less, ns: seq<Elem>, r: seq<Elem>, t: seq<Elem>, D: set<Elem>)
    requires Stage(less, ns, r, D) && Stage(less, r, t, D)
    ensures Stage(less, ns, t, D)
  {
    StableTwice(less, ns, r, t);
  }

  lemma Finished(less: Less, head: Elem, s: seq<Elem>, tail: Elem, r: seq<Elem>, D: set<Elem>)
    requires Stage(less, Ring(head, s, tail), r, D) && Runs(less, r, 1, |r| - 1) <= 1 && Ordering(less, D)
    requires var ns := Ring(head, s, tail); forall i, j :: 0 <= i < j < |ns| ==> ns[i] != ns[j]
    ensures Ring(head, Interior(r), tail) == r
    ensures SortedIn(less, Interior(r), 0, |Interior(r)|) && Stable(less, s, Interior(r))
  {
    RingParts(head, s, tail);
    OneRunIsSorted(less, r, 1, |r| - 1, D);
    InteriorSorted(less, r);
    InteriorStable(less, Ring(head, s, tail), r);
    RingAgain(r);
  }

  class List {
    const head: Elem
    const tail: Elem
    ghost var s: seq<Elem>

    ghost predicate Valid()
      reads this, Ring(head, s, tail)
    {
      Chain(Ring(head, s, tail))
    }

    /** `list_init`. */
    constructor ()
      ensures Valid() && s == [] && fresh(head) && fresh(tail)
    {
      head := new Elem();
      tail := new Elem();
      s := [];
      new;
      head.next := tail;
      tail.prev := head;
    }

    /** Sorts the list; `passes` bounds the running time at n times the logarithm of the runs. */
    method Sort(less: Less) returns (ghost passes: nat)
      requires Valid() && Ordering(less, set e | e in s)
      modifies this, Ring(head, s, tail)
      ensures Valid() && SortedIn(less, s, 0, |s|) && Stable(less, old(s), s)
      ensures 1 <= passes && (1 < passes ==> Pow2(passes - 1) < Runs(less, old(s), 0, |old(s)|))
    {
      hide Stable, SortedIn, Ordering, Within, Runs, Stage, Ring, Interior, Pow2, Halved;
      ghost var D := set e | e in s;
      ghost var ns := Ring(head, s, tail);
      RingParts(head, s, tail);
      ghost var first := Runs(less, ns, 1, |ns| - 1);
      Starting(less, head, s, tail, D);
      var outputRunCnt: nat, r := MergePass(head, tail, less, ns, D);
      passes := 1;
      FirstPass(first, outputRunCnt);
      while outputRunCnt > 1
        invariant Chain(r) && |r| == |ns| && Stage(less, ns, r, D) && r[0] == head && r[|r| - 1] == tail
        invariant Runs(less, r, 1, |r| - 1) <= outputRunCnt
        invariant 1 <= passes && Halved(passes, first, outputRunCnt) && (1 < passes ==> Pow2(passes - 1) < first)
        decreases outputRunCnt
      {
        StageParts(less, ns, r, D, 1);
        ghost var runs := Runs(less, r, 1, |r| - 1);
        ghost var t;
        var out: nat;
        out, t := MergePass(head, tail, less, r, D);
        PassCount(passes, runs, first, outputRunCnt, out);
        StageTwice(less, ns, r, t, D);
        outputRunCnt, r := out, t;
        passes := passes + 1;
      }
      Finished(less, head, old(s), tail, r, D);
      s := Interior(r);
    }
  }
}
