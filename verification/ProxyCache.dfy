/** The web cache inside proxy.c: blocks on a doubly linked list, evicted from
    the tail with a second chance for blocks that were used.  Requests are
    taken one at a time. */
module ProxyCache {

  const MAX_CACHE_SIZE := 1049000
  const MAX_OBJECT_SIZE := 102400

  type byte = x: int | 0 <= x < 256

  class Block {
    const url: string
    const data: seq<byte>
    var referenceBit: bool
    var prev: Block?
    var next: Block?

    constructor (url: string, data: seq<byte>)
      ensures this.url == url && this.data == data && referenceBit && prev == null && next == null
    {
      this.url, this.data, referenceBit, prev, next := url, data, true, null, null;
    }
  }

  // ------------------------------------------------------- eviction order

  /** A listed block with its reference bit. */
  datatype Entry = Entry(b: Block, bit: bool)

  /** The blocks whose bit is `v`, from the tail on. */
  ghost function FromTail(es: seq<Entry>, v: bool): seq<Block> {
    if es == [] then []
    else (if es[|es| - 1].bit == v then [es[|es| - 1].b] else []) + FromTail(es[..|es| - 1], v)
  }

  /** The order in which the blocks will go if none is used again. */
  ghost function Order(es: seq<Entry>): seq<Block> {
    FromTail(es, false) + FromTail(es, true)
  }

  lemma {:induction false} FromTailFront(e: Entry, es: seq<Entry>, v: bool)
    ensures FromTail([e] + es, v) == FromTail(es, v) + if e.bit == v then [e.b] else []
  {
    if es == [] {
      assert ([e] + es)[..0] == [];
    } else {
      FromTailFront(e, es[..|es| - 1], v);
      assert ([e] + es)[..|es|] == [e] + es[..|es| - 1];
    }
  }

  /** A second chance does not change the order. */
  lemma SecondChance(es: seq<Entry>)
    requires es != [] && es[|es| - 1].bit
    ensures Order([Entry(es[|es| - 1].b, false)] + es[..|es| - 1]) == Order(es)
  {
    var t, rest := es[|es| - 1], es[..|es| - 1];
    FromTailFront(Entry(t.b, false), rest, false);
    FromTailFront(Entry(t.b, false), rest, true);
    assert FromTail(es, false) == FromTail(rest, false) && FromTail(es, true) == [t.b] + FromTail(rest, true);
    hide FromTail;
    Regroup(FromTail(rest, false), t.b, FromTail(rest, true));
  }

  lemma Regroup(a: seq<Block>, b: Block, c: seq<Block>)
    ensures (a + [b]) + c == a + ([b] + c)
  {
  }

  /** A block evicted is the first in the order. */
  lemma Evicted(es: seq<Entry>)
    requires es != [] && !es[|es| - 1].bit
    ensures Order(es) == [es[|es| - 1].b] + Order(es[..|es| - 1])
  {
  }

  /** A block stored becomes the last in the order. */
  lemma Stored(b: Block, es: seq<Entry>)
    ensures Order([Entry(b, true)] + es) == Order(es) + [b]
  {
    FromTailFront(Entry(b, true), es, false);
    FromTailFront(Entry(b, true), es, true);
  }

  // ------------------------------------------------------------- invariant

  ghost function Size(bs: seq<Block>): nat {
    if bs == [] then 0 else |bs[0].data| + Size(bs[1..])
  }

  lemma {:induction false} SizeJoin(a: seq<Block>, b: seq<Block>)
    ensures Size(a + b) == Size(a) + Size(b)
  {
    if a == [] {
      assert a + b == b;
    } else {
      SizeJoin(a[1..], b);
      assert (a + b)[1..] == a[1..] + b;
    }
  }

  lemma SizeOne(b: Block)
    ensures Size([b]) == |b.data| && Size([]) == 0
  {
  }

  ghost predicate Small(bs: seq<Block>) {
    forall b :: b in bs ==> |b.data| <= MAX_OBJECT_SIZE
  }

  lemma {:induction false} SizeBound(bs: seq<Block>)
    requires Small(bs)
    ensures Size(bs) <= MAX_OBJECT_SIZE * |bs|
  {
    if bs != [] {
      SizeBound(bs[1..]);
    }
  }

  /** When a block has to go, at least ten are there. */
  lemma TenBlocks(bs: seq<Block>, bytes: nat)
    requires Small(bs) && bytes <= MAX_OBJECT_SIZE && Size(bs) + bytes > MAX_CACHE_SIZE
    ensures 10 <= |bs|
  {
    SizeBound(bs);
  }

  /** `next` and `prev` run through `bs`, with null at both ends. */
  ghost predicate Chain(bs: seq<Block>)
    reads bs
  {
    && (forall i, j :: 0 <= i < j < |bs| ==> bs[i] != bs[j])
    && (forall i :: 0 <= i < |bs| - 1 ==> bs[i].next == bs[i + 1])
    && (forall i :: 0 < i < |bs| ==> bs[i].prev == bs[i - 1])
    && (bs != [] ==> bs[0].prev == null && bs[|bs| - 1].next == null)
  }

  lemma LastPrev(bs: seq<Block>)
    requires Chain(bs) && bs != []
    ensures bs[|bs| - 1].prev == if |bs| > 1 then bs[|bs| - 2] else null
  {
  }

  ghost function Entries(bs: seq<Block>): (es: seq<Entry>)
    reads bs
    ensures |es| == |bs| && forall i :: 0 <= i < |bs| ==> es[i] == Entry(bs[i], bs[i].referenceBit)
  {
    if bs == [] then [] else [Entry(bs[0], bs[0].referenceBit)] + Entries(bs[1..])
  }

  ghost predicate DistinctUrls(bs: seq<Block>) {
    forall b, c :: b in bs && c in bs && b != c ==> b.url != c.url
  }

  class Cache {
    var head: Block?
    var tail: Block?
    var totalSize: int
    ghost var list: seq<Block>

    /** The list is consistent and `totalSize` is the sum of its blocks. */
    ghost predicate Linked()
      reads this, list
    {
      && Chain(list) && Small(list) && totalSize == Size(list)
      && head == (if list == [] then null else list[0])
      && tail == (if list == [] then null else list[|list| - 1])
    }

    ghost predicate Valid()
      reads this, list
    {
      Linked() && totalSize <= MAX_CACHE_SIZE && DistinctUrls(list)
    }

    /** `cache_init`. */
    constructor ()
      ensures Valid() && list == []
    {
      head, tail, totalSize, list := null, null, 0, [];
    }

    /** The tail block moves to the front, its reference bit cleared.  A block alone
        on the list would end up linked to itself. */
    method GiveSecondChance()
      requires Linked() && list != [] && list[|list| - 1].referenceBit
      modifies this, list
      ensures totalSize == old(totalSize) && list == [old(list)[|old(list)| - 1]] + old(list)[..|old(list)| - 1]
      ensures 2 <= |list| ==> Linked() && Entries(list) == [Entry(list[0], false)] + old(Entries(list))[..|old(list)| - 1]
      ensures |list| == 1 ==> head == tail == list[0] && list[0].next == list[0]
    {
      hide Entries, Size;
      ghost var n := |list|;
      var t := tail;
      LastPrev(list);
      t.referenceBit := false;
      tail := t.prev;
      if tail != null {
        tail.next := null;
      }
      t.prev := null;
      t.next := head;
      if head != null {
        head.prev := t;
      }
      head := t;
      if tail == null {
        tail := t;
      }
      assert list == list[..n - 1] + [t];
      SizeJoin(list[..n - 1], [t]);
      SizeJoin([t], list[..n - 1]);
      list := [t] + list[..n - 1];
    }

    /** The tail block, whose bit must be clear, is unlinked and freed. */
    method EvictTail()
      requires Linked() && list != [] && !list[|list| - 1].referenceBit
      modifies this, list
      ensures Linked() && list == old(list)[..|old(list)| - 1]
      ensures Entries(list) == old(Entries(list))[..|list|]
      ensures totalSize == old(totalSize) - |old(list)[|old(list)| - 1].data|
    {
      hide Entries, Size;
      ghost var n := |list|;
      var t := tail;
      assert t == list[n - 1];
      LastPrev(list);
      tail := t.prev;
      if tail != null {
        tail.next := null;
      } else {
        head := null;
      }
      assert list == list[..n - 1] + [t];
      SizeJoin(list[..n - 1], [t]);
      SizeOne(t);
      totalSize := totalSize - |t.data|;
      list := list[..n - 1];
    }

    method PushFront(t: Block)
      requires Linked() && t !in list && |t.data| <= MAX_OBJECT_SIZE && t.referenceBit
      modifies this, list, t
      ensures Linked() && list == [t] + old(list)
      ensures Entries(list) == [Entry(t, true)] + old(Entries(list)) && totalSize == old(totalSize) + |t.data|
    {
      hide Entries, Size;
      t.prev := null;
      t.next := head;
      if head != null {
        head.prev := t;
      } else {
        tail := t;
      }
      head := t;
      SizeJoin([t], list);
      SizeOne(t);
      assert forall i :: 0 < i <= |list| ==> ([t] + list)[i] != t;
      list := [t] + list;
      totalSize := totalSize + |t.data|;
    }

    /** Evicts until `bytes` more fit: the first of the order go, and no more of them than needed. */
    method MakeRoom(bytes: nat) returns (ghost gone: seq<Block>)
      requires Linked() && bytes <= MAX_OBJECT_SIZE
      modifies this, list
      ensures Linked() && totalSize + bytes <= MAX_CACHE_SIZE
      ensures old(Order(Entries(list))) == gone + Order(Entries(list))
      ensures forall k :: 0 <= k < |gone| ==> old(totalSize) - Size(gone[..k]) + bytes > MAX_CACHE_SIZE
      ensures forall i :: 0 <= i < |list| ==> list[i] in old(list)
    {
      hide Chain, Small, Entries, Size, Order, FromTail;
      gone := [];
      NothingGone();
      while totalSize + bytes > MAX_CACHE_SIZE
        invariant Linked() && forall i :: 0 <= i < |list| ==> list[i] in old(list)
        invariant old(Order(Entries(list))) == gone + Order(Entries(list)) && totalSize == old(totalSize) - Size(gone)
        invariant forall k :: 0 <= k < |gone| ==> old(totalSize) - Size(gone[..k]) + bytes > MAX_CACHE_SIZE
        decreases |list|, |FromTail(Entries(list), true)|
      {
        TenBlocks(list, bytes);
        if tail == null {
          break;
        }
        ghost var es := Entries(list);
        ghost var t := list[|list| - 1];
        if tail.referenceBit {
          SecondChance(es);
          FewerChances(es);
          GiveSecondChance();
          assert es[..|es| - 1] == es[..|list| - 1];
        } else {
          Evicted(es);
          LastGone(list, gone);
          EvictTail();
          GoneLonger(gone, t);
          gone := gone + [t];
        }
      }
    }

    /** The loop over the list on a request: a hit sets the block's reference bit. */
    method Lookup(fullUrl: string) returns (hit: Block?)
      requires Valid()
      modifies list
      ensures Valid() && list == old(list) && totalSize == old(totalSize)
      ensures hit == null ==> forall b :: b in list ==> b.url != fullUrl
      ensures hit != null ==> hit in list && hit.url == fullUrl
      ensures forall b :: b in list ==> b.referenceBit == (old(b.referenceBit) || b == hit)
    {
      var temp := head;
      ghost var i := 0;
      while temp != null
        invariant 0 <= i <= |list| && temp == if i < |list| then list[i] else null
        invariant forall j :: 0 <= j < i ==> list[j].url != fullUrl
        decreases |list| - i
      {
        if temp.url == fullUrl {
          temp.referenceBit := true;
          return temp;
        }
        temp := temp.next;
        i := i + 1;
      }
      return null;
    }

    /** A new block with bit set goes to the front, and last in the eviction order. */
    method Store(fullUrl: string, body: seq<byte>) returns (ghost gone: seq<Block>)
      requires Valid() && |body| <= MAX_OBJECT_SIZE && forall b :: b in list ==> b.url != fullUrl
      modifies this, list
      ensures Valid() && list != [] && fresh(list[0]) && list[0].url == fullUrl && list[0].data == body
      ensures gone <= old(Order(Entries(list))) && Order(Entries(list)) == old(Order(Entries(list)))[|gone|..] + [list[0]]
      ensures forall k :: 0 <= k < |gone| ==> old(totalSize) - Size(gone[..k]) + |body| > MAX_CACHE_SIZE
      ensures forall b :: b in list[1..] ==> b in old(list)
    {
      hide Chain, Small, Entries, Size, Order, FromTail;
      gone := MakeRoom(|body|);
      ghost var es := Entries(list);
      var t := new Block(fullUrl, body);
      assert Entries(list) == es;
      Stored(t, es);
      PushFront(t);
    }

    /** The request was answered from block `b`, whose reference bit is now set; nothing else has changed. */
    twostate predicate Hit(b: Block, fullUrl: string, answer: seq<byte>)
      reads this, list
    {
      && b in old(list) && b.url == fullUrl && answer == b.data && list == old(list) && totalSize == old(totalSize)
      && forall c :: c in list ==> c.referenceBit == (old(c.referenceBit) || c == b)
    }

    /** `handle_client`, the connections aside: the answer to a request whose
        origin server, if asked, sends `chunks`.  A hit leaves all but one
        reference bit alone, a response that is too large leaves everything
        alone, and any other response is stored, for which the first of the
        eviction order may have to go. */
    method Handle(fullUrl: string, chunks: seq<seq<byte>>) returns (answer: seq<byte>, ghost gone: seq<Block>)
      requires Valid()
      modifies this, list
      ensures Valid()
      ensures if exists b :: b in old(list) && b.url == fullUrl then gone == [] && exists b :: b in old(list) && Hit(b, fullUrl, answer)
              else answer == Concat(chunks)
      ensures (forall b :: b in old(list) ==> b.url != fullUrl) && |answer| > MAX_OBJECT_SIZE ==>
                gone == [] && list == old(list) && Entries(list) == old(Entries(list)) && totalSize == old(totalSize)
      ensures (forall b :: b in old(list) ==> b.url != fullUrl) && |answer| <= MAX_OBJECT_SIZE ==>
                && list != [] && fresh(list[0]) && list[0].url == fullUrl && list[0].data == answer
                && gone <= old(Order(Entries(list))) && Order(Entries(list)) == old(Order(Entries(list)))[|gone|..] + [list[0]]
                && forall k :: 0 <= k < |gone| ==> old(totalSize) - Size(gone[..k]) + |answer| > MAX_CACHE_SIZE
      ensures forall b :: b in list ==> b in old(list) || (b.url == fullUrl && b.data == Concat(chunks))
    {
      hide Order, Size, Entries, Chain, Small;
      gone := [];
      var hit := Lookup(fullUrl);
      if hit != null {
        assert Hit(hit, fullUrl, hit.data);
        return hit.data, [];
      }
      SameEntries();
      var responseBuf, totalBytes := ReadResponse(chunks);
      answer := Concat(chunks);
      if totalBytes <= MAX_OBJECT_SIZE {
        gone := Store(fullUrl, responseBuf[..totalBytes]);
        assert list == [list[0]] + list[1..];
      }
    }

    /** Without a bit changed the entries are the same. */
    twostate lemma SameEntries()
      requires list == old(list) && forall b :: b in list ==> b.referenceBit == old(b.referenceBit)
      ensures Entries(list) == old(Entries(list))
    {
    }
  }

  function Concat(chunks: seq<seq<byte>>): seq<byte> {
    if chunks == [] then [] else Concat(chunks[..|chunks| - 1]) + chunks[|chunks| - 1]
  }

  /** The loop that forwards a response and keeps a copy while it is small enough. */
  method ReadResponse(chunks: seq<seq<byte>>) returns (buf: array<byte>, totalBytes: nat)
    ensures fresh(buf) && buf.Length == MAX_OBJECT_SIZE && totalBytes == |Concat(chunks)|
    ensures totalBytes <= MAX_OBJECT_SIZE ==> buf[..totalBytes] == Concat(chunks)
  {
    buf := new byte[MAX_OBJECT_SIZE];
    totalBytes := 0;
    for k := 0 to |chunks|
      invariant totalBytes == |Concat(chunks[..k])|
      invariant totalBytes <= MAX_OBJECT_SIZE ==> buf[..totalBytes] == Concat(chunks[..k])
    {
      var n := |chunks[k]|;
      ghost var before := Concat(chunks[..k]);
      assert chunks[..k + 1][..k] == chunks[..k];
      if totalBytes + n <= MAX_OBJECT_SIZE {
        forall i | 0 <= i < n {
          buf[totalBytes + i] := chunks[k][i];
        }
        assert buf[..totalBytes] == before;
        assert buf[..totalBytes + n] == before + chunks[k];
      }
      totalBytes := totalBytes + n;
    }
    assert chunks[..|chunks|] == chunks;
  }

  lemma NothingGone()
    ensures Size([]) == 0 && forall q: seq<Block> :: q == [] + q
  {
  }

  lemma FewerChances(es: seq<Entry>)
    requires es != [] && es[|es| - 1].bit
    ensures |FromTail([Entry(es[|es| - 1].b, false)] + es[..|es| - 1], true)| < |FromTail(es, true)|
  {
    FromTailFront(Entry(es[|es| - 1].b, false), es[..|es| - 1], true);
  }

  lemma LastGone(list: seq<Block>, gone: seq<Block>)
    requires list != []
    ensures var t := list[|list| - 1];
            Size(list[..|list| - 1]) == Size(list) - |t.data| && Size(gone + [t]) == Size(gone) + |t.data|
  {
    var t := list[|list| - 1];
    assert list == list[..|list| - 1] + [t];
    SizeJoin(list[..|list| - 1], [t]);
    SizeJoin(gone, [t]);
    SizeOne(t);
  }

  lemma GoneLonger(gone: seq<Block>, t: Block)
    ensures (gone + [t])[..|gone|] == gone && forall k :: 0 <= k < |gone| ==> (gone + [t])[..k] == gone[..k]
  {
  }
}
