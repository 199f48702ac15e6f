/** lib/kernel/hash.c: a hash table of buckets that doubles and halves itself,
    keyed by the equivalence that `less` leaves. */
module HashTable {
  import opened Arithmetic64

  datatype Option<T> = None | Some(value: T)

  // -------------------------------------------------------- the bit tricks

  /** The bitwise `&` of two numbers. */
  function And(x: nat, y: nat): nat
    decreases x
  {
    if x == 0 || y == 0 then 0 else 2 * And(x / 2, y / 2) + (x % 2) * (y % 2)
  }

  /** Masking with a power of two less one is the remainder. */
  lemma {:induction false} MaskIsRemainder(x: nat, k: nat)
    ensures And(x, Pow2(k) - 1) == x % Pow2(k)
    decreases k
  {
    if k == 0 {
      AndZero(x);
    } else {
      var p := Pow2(k - 1);
      MaskIsRemainder(x / 2, k - 1);
      HalfRemainder(x, p);
      hide And;
      AndOdd(x, p - 1);
      assert Pow2(k) - 1 == 2 * (p - 1) + 1;
    }
  }

  lemma AndOdd(x: nat, m: nat)
    ensures And(x, 2 * m + 1) == 2 * And(x / 2, m) + x % 2
  {
    assert (2 * m + 1) / 2 == m && (2 * m + 1) % 2 == 1;
    AndZero(m);
  }

  lemma AndZero(x: nat)
    ensures And(x, 0) == 0 && And(0, x) == 0
  {
  }

  /** `turn_off_least_1bit`. */
  function TurnOff(x: nat): nat
    requires 0 < x
  {
    And(x, x - 1)
  }

  /** `is_power_of_2`. */
  predicate IsPowerOf2(x: nat) {
    x != 0 && TurnOff(x) == 0
  }

  /** The largest power of two that is at most `x`. */
  ghost function Top(x: nat): (p: nat)
    requires 0 < x
    ensures 1 <= p <= x < 2 * p
  {
    if x == 1 then 1 else 2 * Top(x / 2)
  }

  lemma {:induction false} AndSelf(x: nat)
    ensures And(x, x) == x
    decreases x
  {
    if x > 0 {
      AndSelf(x / 2);
    }
  }

  /** Turning off the lowest bit keeps the highest, unless it is the same one. */
  lemma {:induction false} TurnOffKeepsTop(x: nat)
    requires 0 < x
    ensures TurnOff(x) < x && (TurnOff(x) == 0 <==> x == Top(x)) && (TurnOff(x) != 0 ==> Top(TurnOff(x)) == Top(x))
    decreases x
  {
    hide And, Top, TurnOff;
    var y := x / 2;
    if x == 1 {
      One();
    } else if x % 2 == 1 {
      TurnOffOdd(y);
      OddTop(y);
    } else {
      TurnOffKeepsTop(y);
      TurnOffDouble(y);
      if TurnOff(y) != 0 {
        OddTop(TurnOff(y));
      }
      OddTop(y);
    }
  }

  lemma One()
    ensures TurnOff(1) == 0 && Top(1) == 1
  {
  }

  lemma TurnOffOdd(y: nat)
    ensures TurnOff(2 * y + 1) == 2 * y
  {
    AndSelf(y);
    assert (2 * y + 1) / 2 == y && 2 * y / 2 == y;
  }

  lemma OddTop(y: nat)
    requires 0 < y
    ensures Top(2 * y) == Top(2 * y + 1) == 2 * Top(y)
  {
    assert (2 * y) / 2 == y && (2 * y + 1) / 2 == y;
  }

  lemma TurnOffDouble(y: nat)
    requires 0 < y
    ensures TurnOff(2 * y) == 2 * TurnOff(y)
  {
    var x := 2 * y;
    assert x / 2 == y && (x - 1) / 2 == y - 1 && x % 2 == 0;
  }

  ghost predicate PowerOf2(x: nat) {
    exists k: nat :: x == Pow2(k)
  }

  lemma {:induction false} TopIsPower(x: nat)
    requires 0 < x
    ensures PowerOf2(Top(x))
    decreases x
  {
    if x == 1 {
      assert 1 == Pow2(0);
    } else {
      TopIsPower(x / 2);
      var k: nat :| Top(x / 2) == Pow2(k);
      assert Top(x) == Pow2(k + 1);
    }
  }

  /** The bucket count that `rehash` aims at. */
  ghost function Ideal(n: nat): nat {
    Top(if n / 2 < 4 then 4 else n / 2)
  }

  method IdealCount(elemCnt: nat) returns (cnt: nat)
    ensures cnt == Ideal(elemCnt) && 4 <= cnt && PowerOf2(cnt)
    ensures cnt <= (if elemCnt < 8 then 4 else elemCnt / 2) < 2 * cnt
  {
    cnt := elemCnt / 2;
    if cnt < 4 {
      cnt := 4;
    }
    ghost var x := cnt;
    TopAtLeast4(x);
    while !IsPowerOf2(cnt)
      invariant 0 < cnt && Top(cnt) == Top(x)
      decreases cnt
    {
      TurnOffKeepsTop(cnt);
      cnt := TurnOff(cnt);
    }
    TurnOffKeepsTop(cnt);
    TopIsPower(x);
  }

  lemma TopAtLeast4(x: nat)
    requires 4 <= x
    ensures 4 <= Top(x)
  {
    assert Top(x) == 2 * Top(x / 2) == 4 * Top(x / 2 / 2);
  }

  // ------------------------------------------------------------- buckets

  function Flat<E>(bs: seq<seq<E>>): seq<E> {
    if bs == [] then [] else bs[0] + Flat(bs[1..])
  }

  lemma {:induction false} FlatMembers<E>(bs: seq<seq<E>>, x: E)
    ensures x in Flat(bs) <==> exists i :: 0 <= i < |bs| && x in bs[i]
    decreases |bs|
  {
    if bs != [] {
      FlatMembers(bs[1..], x);
      assert bs == [bs[0]] + bs[1..];
      if exists i :: 0 <= i < |bs| && x in bs[i] {
        var i :| 0 <= i < |bs| && x in bs[i];
        assert i > 0 ==> bs[1..][i - 1] == bs[i];
      }
      if x in Flat(bs[1..]) {
        var i :| 0 <= i < |bs[1..]| && x in bs[1..][i];
        assert bs[i + 1] == bs[1..][i];
      }
    }
  }

  /** Adding at the front of one bucket adds one element, taking one out removes it. */
  lemma {:induction false} FlatChange<E>(bs: seq<seq<E>>, i: nat, b: seq<E>, m: multiset<E>, m': multiset<E>)
    requires i < |bs| && multiset(b) + m == multiset(bs[i]) + m'
    ensures multiset(Flat(bs[i := b])) + m == multiset(Flat(bs)) + m'
    decreases |bs|
  {
    var bs' := bs[i := b];
    assert multiset(Flat(bs)) == multiset(bs[0]) + multiset(Flat(bs[1..]));
    assert multiset(Flat(bs')) == multiset(bs'[0]) + multiset(Flat(bs'[1..]));
    if i == 0 {
      assert bs'[1..] == bs[1..];
      var rest := multiset(Flat(bs[1..]));
      SameSum(rest, multiset(b), m, multiset(bs[0]), m');
      assert multiset(b) + rest == rest + multiset(b) && multiset(bs[0]) + rest == rest + multiset(bs[0]);
    } else {
      FlatChange(bs[1..], i - 1, b, m, m');
      assert bs'[1..] == bs[1..][i - 1 := b] && bs'[0] == bs[0];
      SameSum(multiset(bs[0]), multiset(Flat(bs'[1..])), m, multiset(Flat(bs[1..])), m');
    }
  }

  lemma SameSum<E>(a: multiset<E>, x: multiset<E>, m: multiset<E>, y: multiset<E>, m': multiset<E>)
    requires x + m == y + m'
    ensures a + x + m == a + y + m'
  {
    assert a + x + m == a + (x + m);
    assert a + y + m' == a + (y + m');
  }

  lemma {:induction false} FlatEmpty<E>(bs: seq<seq<E>>)
    requires forall i :: 0 <= i < |bs| ==> bs[i] == []
    ensures Flat(bs) == []
    decreases |bs|
  {
    if bs != [] {
      FlatEmpty(bs[1..]);
    }
  }

  lemma {:induction false} FlatJoin<E>(a: seq<seq<E>>, b: seq<seq<E>>)
    ensures Flat(a + b) == Flat(a) + Flat(b)
    decreases |a|
  {
    if a == [] {
      assert a + b == b;
    } else {
      assert (a + b)[1..] == a[1..] + b;
      FlatJoin(a[1..], b);
    }
  }

  // ------------------------------------------------------------ the table

  class Hash<E(==, !new)> {
    const hash: E -> nat
    const less: (E, E) -> bool
    var buckets: seq<seq<E>>
    var elemCnt: nat
    var bucketCnt: nat

    ghost predicate Equal(x: E, y: E) {
      !less(x, y) && !less(y, x)
    }

    /** What hash.h asks of the two functions: elements that are not less than each other
        are interchangeable and hash alike. */
    ghost predicate Compatible() {
      && (forall x :: Equal(x, x))
      && (forall x, y, z :: Equal(x, y) && Equal(y, z) ==> Equal(x, z))
      && (forall x, y :: Equal(x, y) ==> hash(x) == hash(y))
    }

    /** The elements, each bucket from the front. */
    ghost function Elems(): seq<E>
      reads this
    {
      Flat(buckets)
    }

    ghost predicate Placed(bs: seq<seq<E>>, cnt: nat)
      requires 0 < cnt
    {
      forall i, x :: 0 <= i < |bs| && x in bs[i] ==> hash(x) % cnt == i
    }

    /** No two elements are equal. */
    ghost predicate Unique(m: multiset<E>) {
      && (forall x :: m[x] <= 1)
      && (forall x, y :: x in m && y in m && Equal(x, y) ==> x == y)
    }

    ghost predicate Shaped()
      reads this
    {
      && |buckets| == bucketCnt && 4 <= bucketCnt && PowerOf2(bucketCnt)
      && Placed(buckets, bucketCnt)
    }

    ghost predicate Valid()
      reads this
    {
      Compatible() && Shaped() && elemCnt == |Elems()| && Unique(multiset(Elems()))
    }

    /** `hash_init`; the allocation of the first buckets succeeds. */
    constructor (hash: E -> nat, less: (E, E) -> bool)
      ensures this.hash == hash && this.less == less && bucketCnt == 4 && elemCnt == 0 && Elems() == [] && Shaped()
    {
      this.hash, this.less, elemCnt, bucketCnt := hash, less, 0, 4;
      buckets := [[], [], [], []];
      assert 4 == Pow2(2);
      new;
      FlatEmpty(buckets);
    }

    method FindBucket(e: E) returns (i: nat)
      requires Shaped()
      ensures i == hash(e) % bucketCnt < |buckets|
    {
      i := And(hash(e), bucketCnt - 1);
      ghost var k: nat :| bucketCnt == Pow2(k);
      MaskIsRemainder(hash(e), k);
    }

    method FindElem(bucket: seq<E>, e: E) returns (r: Option<E>)
      ensures r.Some? ==> r.value in bucket && Equal(r.value, e)
      ensures r.None? ==> forall x :: x in bucket ==> !Equal(x, e)
    {
      for i := 0 to |bucket|
        invariant forall j :: 0 <= j < i ==> !Equal(bucket[j], e)
      {
        if !less(bucket[i], e) && !less(e, bucket[i]) {
          return Some(bucket[i]);
        }
      }
      r := None;
    }

    /** The element of the table equal to `e`, if there is one. */
    method Find(e: E) returns (r: Option<E>)
      requires Valid()
      ensures r.Some? ==> r.value in Elems() && Equal(r.value, e)
      ensures r.None? ==> forall x :: x in Elems() ==> !Equal(x, e)
    {
      var i := FindBucket(e);
      r := FindElem(buckets[i], e);
      InBucket(e, i);
      if r.Some? {
        FlatMembers(buckets, r.value);
      }
    }

    /** An element equal to `e` can only be in `e`'s bucket. */
    lemma InBucket(e: E, i: nat)
      requires Compatible() && Shaped() && i == hash(e) % bucketCnt
      ensures forall x :: x in Elems() && Equal(x, e) ==> x in buckets[i]
    {
      forall x | x in Elems() && Equal(x, e)
        ensures x in buckets[i]
      {
        FlatMembers(buckets, x);
        var j :| 0 <= j < |buckets| && x in buckets[j];
        assert hash(x) == hash(e);
      }
    }

    method InsertElem(i: nat, e: E)
      requires Shaped() && i == hash(e) % bucketCnt
      modifies this`buckets, this`elemCnt
      ensures Shaped() && elemCnt == old(elemCnt) + 1 && multiset(Elems()) == old(multiset(Elems())) + multiset{e}
      ensures |Elems()| == old(|Elems()|) + 1
    {
      ghost var bs := buckets;
      FlatChange(buckets, i, [e] + buckets[i], multiset{}, multiset{e});
      elemCnt := elemCnt + 1;
      buckets := buckets[i := [e] + buckets[i]];
      BagSize(Flat(buckets), Flat(bs), multiset{e});
    }

    method RemoveElem(e: E)
      requires Valid() && e in Elems()
      modifies this`buckets, this`elemCnt
      ensures Shaped() && elemCnt == old(elemCnt) - 1 && multiset(Elems()) + multiset{e} == old(multiset(Elems()))
      ensures |Elems()| == old(|Elems()|) - 1
    {
      ghost var bs := buckets;
      InBucket(e, hash(e) % bucketCnt);
      assert Equal(e, e);
      var i := FindBucket(e);
      var j :| 0 <= j < |buckets[i]| && buckets[i][j] == e;
      var rest := buckets[i][..j] + buckets[i][j + 1..];
      assert buckets[i] == buckets[i][..j] + [e] + buckets[i][j + 1..];
      FlatChange(buckets, i, rest, multiset{e}, multiset{});
      buckets := buckets[i := rest];
      BagSize(Flat(bs), Flat(buckets), multiset{e});
      elemCnt := elemCnt - 1;
    }

    /** Resizes to the ideal number of buckets, if memory for them can be had; no element is lost. */
    method Rehash(mallocOk: bool)
      requires Shaped() && elemCnt == |Elems()|
      modifies this`buckets, this`bucketCnt
      ensures Shaped() && multiset(Elems()) == old(multiset(Elems())) && |Elems()| == old(|Elems()|)
      ensures bucketCnt == if mallocOk then Ideal(elemCnt) else old(bucketCnt)
    {
      var oldBuckets := buckets;
      var newCnt := IdealCount(elemCnt);
      if newCnt == bucketCnt {
        return;
      }
      if !mallocOk {
        return;
      }
      hide Flat;
      buckets := seq(newCnt, i => []);
      bucketCnt := newCnt;
      FlatEmpty(buckets);
      FlatEmpty(oldBuckets[..0]);
      for i := 0 to |oldBuckets|
        invariant Shaped() && bucketCnt == newCnt && elemCnt == old(elemCnt)
        invariant multiset(Elems()) == multiset(Flat(oldBuckets[..i]))
      {
        MoveBucket(oldBuckets[i]);
        SplitAt(oldBuckets, i);
      }
      assert oldBuckets[..|oldBuckets|] == oldBuckets;
      BagSize(Elems(), Flat(oldBuckets), multiset{});
    }

    /** The inner loop: every element of an old bucket goes to the front of its new one. */
    method MoveBucket(bucket: seq<E>)
      requires Shaped()
      modifies this`buckets
      ensures Shaped() && multiset(Elems()) == old(multiset(Elems())) + multiset(bucket)
    {
      hide Flat, Shaped;
      for j := 0 to |bucket|
        invariant Shaped() && multiset(Elems()) == old(multiset(Elems())) + multiset(bucket[..j])
      {
        var x := bucket[j];
        PushFront(x);
        assert bucket[..j + 1] == bucket[..j] + [x];
        OneMore(old(multiset(Elems())), bucket[..j], x);
      }
      assert bucket[..|bucket|] == bucket;
    }

    method PushFront(x: E)
      requires Shaped()
      modifies this`buckets
      ensures Shaped() && multiset(Elems()) == old(multiset(Elems())) + multiset{x}
    {
      var b := FindBucket(x);
      FlatChange(buckets, b, [x] + buckets[b], multiset{}, multiset{x});
      buckets := buckets[b := [x] + buckets[b]];
    }

    /** Inserts `e` unless an equal element is there, which is then the result. */
    method Insert(e: E, mallocOk: bool) returns (found: Option<E>)
      requires Valid()
      modifies this
      ensures Valid()
      ensures found.Some? ==> Equal(found.value, e) && found.value in old(Elems()) && multiset(Elems()) == old(multiset(Elems()))
      ensures found.None? ==> (forall x :: x in old(Elems()) ==> !Equal(x, e))
                              && multiset(Elems()) == old(multiset(Elems())) + multiset{e}
      ensures bucketCnt == if mallocOk then Ideal(elemCnt) else old(bucketCnt)
    {
      var i := FindBucket(e);
      found := FindElem(buckets[i], e);
      InBucket(e, i);
      if found.None? {
        StaysUnique(multiset(Elems()), e);
        InsertElem(i, e);
      } else {
        FlatMembers(buckets, found.value);
      }
      Rehash(mallocOk);
    }

    /** Inserts `e` in place of an equal element, if there is one, which is the result. */
    method Replace(e: E, mallocOk: bool) returns (found: Option<E>)
      requires Valid()
      modifies this
      ensures Valid()
      ensures found.Some? ==> Equal(found.value, e) && found.value in old(Elems())
                              && multiset(Elems()) + multiset{found.value} == old(multiset(Elems())) + multiset{e}
      ensures found.None? ==> (forall x :: x in old(Elems()) ==> !Equal(x, e))
                              && multiset(Elems()) == old(multiset(Elems())) + multiset{e}
      ensures bucketCnt == if mallocOk then Ideal(elemCnt) else old(bucketCnt)
    {
      hide Flat, Unique;
      ghost var before := multiset(Elems());
      var i := FindBucket(e);
      found := FindElem(buckets[i], e);
      InBucket(e, i);
      if found.Some? {
        FlatMembers(buckets, found.value);
        LeavesUnique(before, found.value, e);
        RemoveElem(found.value);
        RestIs(before, multiset(Elems()), found.value);
      }
      StaysUnique(multiset(Elems()), e);
      InsertElem(i, e);
      Rehash(mallocOk);
    }

    /** Removes the element equal to `e`, if there is one, and returns it. */
    method Delete(e: E, mallocOk: bool) returns (found: Option<E>)
      requires Valid()
      modifies this
      ensures Valid()
      ensures found.Some? ==> Equal(found.value, e) && found.value in old(Elems())
                              && multiset(Elems()) + multiset{found.value} == old(multiset(Elems()))
      ensures found.None? ==> (forall x :: x in old(Elems()) ==> !Equal(x, e)) && multiset(Elems()) == old(multiset(Elems()))
      ensures bucketCnt == if found.Some? && mallocOk then Ideal(elemCnt) else old(bucketCnt)
    {
      ghost var before := multiset(Elems());
      found := Find(e);
      if found.Some? {
        LeavesUnique(before, found.value, e);
        RemoveElem(found.value);
        RestIs(before, multiset(Elems()), found.value);
        Rehash(mallocOk);
      }
    }

    lemma StaysUnique(m: multiset<E>, e: E)
      requires Compatible() && Unique(m) && forall x :: x in m ==> !Equal(x, e)
      ensures Unique(m + multiset{e})
    {
      assert Equal(e, e);
      forall x, y | x in m + multiset{e} && y in m + multiset{e} && Equal(x, y)
        ensures x == y
      {
        assert Equal(y, x);
      }
    }

    lemma LeavesUnique(m: multiset<E>, x: E, e: E)
      requires Compatible() && Unique(m) && x in m && Equal(x, e)
      ensures Unique(m - multiset{x}) && forall y :: y in m - multiset{x} ==> !Equal(y, e)
    {
      forall y | y in m - multiset{x}
        ensures !Equal(y, e)
      {
        assert Equal(y, e) ==> Equal(e, x) && Equal(y, x);
      }
    }
  }

  lemma OneMore<E>(m: multiset<E>, b: seq<E>, x: E)
    ensures m + multiset(b) + multiset{x} == m + multiset(b + [x])
  {
  }

  lemma RestIs<E>(a: multiset<E>, b: multiset<E>, x: E)
    requires b + multiset{x} == a
    ensures b == a - multiset{x}
  {
  }

  lemma FlatOne<E>(b: seq<E>)
    ensures Flat([b]) == b
  {
    assert Flat([b][1..]) == [];
  }

  // ------------------------------------------------------------ iteration

  /** `hash_first` and `hash_next`: a bucket, and how many of its elements have been passed. */
  class Iterator<E(==, !new)> {
    const h: Hash<E>
    var bucket: nat
    var pos: nat
    ghost var seen: nat

    /** The next element to come is number `seen` of the table. */
    ghost predicate Valid()
      reads this, h
    {
      && h.Shaped() && bucket < |h.buckets| && pos <= |h.buckets[bucket]|
      && seen == |Flat(h.buckets[..bucket])| + pos
    }

    constructor (h: Hash<E>)
      requires h.Shaped()
      ensures Valid() && this.h == h && seen == 0
    {
      this.h, bucket, pos, seen := h, 0, 0, 0;
      new;
      assert h.buckets[..0] == [];
    }

    /** Each element in turn, and none at the end: the elements come in order, each once. */
    method Next() returns (r: Option<E>)
      requires Valid()
      modifies this
      ensures Valid() || r.None?
      ensures if old(seen) < |h.Elems()| then r == Some(h.Elems()[old(seen)]) && seen == old(seen) + 1 else r.None?
    {
      while pos == |h.buckets[bucket]|
        invariant Valid() && seen == old(seen)
        decreases |h.buckets| - bucket
      {
        SplitAt(h.buckets, bucket);
        if bucket + 1 >= h.bucketCnt {
          assert h.buckets[bucket + 1..] == [];
          return None;
        }
        bucket := bucket + 1;
        pos := 0;
      }
      SplitAt(h.buckets, bucket);
      r := Some(h.buckets[bucket][pos]);
      pos := pos + 1;
      seen := seen + 1;
    }
  }

  lemma SplitAt<E>(bs: seq<seq<E>>, i: nat)
    requires i < |bs|
    ensures Flat(bs) == Flat(bs[..i]) + bs[i] + Flat(bs[i + 1..])
    ensures Flat(bs[..i + 1]) == Flat(bs[..i]) + bs[i]
  {
    var a, b, c := bs[..i], [bs[i]], bs[i + 1..];
    hide Flat;
    Parts(bs, i);
    FlatThree(a, b, c);
    FlatOne(bs[i]);
  }

  lemma Parts<T>(s: seq<T>, i: nat)
    requires i < |s|
    ensures s == s[..i] + ([s[i]] + s[i + 1..]) && s[..i + 1] == s[..i] + [s[i]]
  {
  }

  lemma FlatThree<E>(a: seq<seq<E>>, b: seq<seq<E>>, c: seq<seq<E>>)
    ensures Flat(a + (b + c)) == Flat(a) + Flat(b) + Flat(c) && Flat(a + b) == Flat(a) + Flat(b)
  {
    FlatJoin(a, b + c);
    FlatJoin(b, c);
    FlatJoin(a, b);
    hide Flat;
    Regrouped(Flat(a), Flat(b), Flat(c));
  }

  lemma Regrouped<E>(a: seq<E>, b: seq<E>, c: seq<E>)
    ensures a + (b + c) == a + b + c
  {
  }

  lemma BagSize<E>(a: seq<E>, b: seq<E>, m: multiset<E>)
    requires multiset(a) == multiset(b) + m
    ensures |a| == |b| + |m|
  {
    assert |multiset(a)| == |a| && |multiset(b)| == |b|;
  }
}
