/** pintos/filesys/inode.c and free-map.c on values: files as extents of disk sectors. */
module DiskLayout {
  import opened Bitmaps

  const SECTOR_SIZE: nat := 512
  const INODE_MAGIC: nat := 0x494e4f44
  const INT_LIMIT: nat := 0x8000_0000

  type Bytes = seq<bv8>

  /** Where a file's data lies, and its length in bytes. */
  datatype Extent = Extent(start: nat, length: nat)

  function Sectors(length: nat): nat {
    (length + SECTOR_SIZE - 1) / SECTOR_SIZE
  }

  /** bytes_to_sectors: a 32-bit sum, and a negative quotient becomes a huge count. */
  function BytesToSectors(size: nat): nat
    requires size < INT_LIMIT
  {
    var up := size + SECTOR_SIZE - 1;
    if up < INT_LIMIT then up / SECTOR_SIZE else 0x1_0000_0000_0000_0000 - (0x1_0000_0000 - up) / SECTOR_SIZE
  }

  /** The count is right exactly when the sum does not wrap; if it does, no disk is large enough. */
  lemma SectorCountIsExact(size: nat)
    requires size < INT_LIMIT
    ensures SECTOR_SIZE * Sectors(size) - SECTOR_SIZE < size <= SECTOR_SIZE * Sectors(size)
    ensures BytesToSectors(size) == Sectors(size) <==> size + SECTOR_SIZE <= INT_LIMIT
    ensures size + SECTOR_SIZE > INT_LIMIT ==> BytesToSectors(size) > BITMAP_ERROR
  {
  }

  // ------------------------------------------------------ the inode on disk

  function ByteFrom(k: nat): bv8
    requires k < 256
  {
    (((k / 16) as bv4) as bv8 << 4) | (((k % 16) as bv4) as bv8)
  }

  function ByteValue(b: bv8): nat {
    16 * (((b >> 4) & 0xF) as bv4) as nat + ((b & 0xF) as bv4) as nat
  }

  lemma NibbleBack(k: nat)
    requires k < 16
    ensures (k as bv4) as nat == k
  {
  }

  lemma NibblesBack(h: bv4, l: bv4)
    ensures var b := ((h as bv8) << 4) | (l as bv8); ((b >> 4) & 0xF) as bv4 == h && (b & 0xF) as bv4 == l
  {
  }

  lemma ByteBack(k: nat)
    requires k < 256
    ensures ByteValue(ByteFrom(k)) == k
  {
    NibbleBack(k / 16);
    NibbleBack(k % 16);
    NibblesBack((k / 16) as bv4, (k % 16) as bv4);
  }

  /** A 32-bit number as four bytes, the lowest first. */
  function Word32(n: nat): (b: Bytes)
    requires n < 0x1_0000_0000
    ensures |b| == 4
  {
    [ByteFrom(n % 256), ByteFrom(n / 256 % 256), ByteFrom(n / 65536 % 256), ByteFrom(n / 16777216)]
  }

  function Number32(b: Bytes): nat
    requires |b| == 4
  {
    ByteValue(b[0]) + 256 * ByteValue(b[1]) + 65536 * ByteValue(b[2]) + 16777216 * ByteValue(b[3])
  }

  lemma Number32Back(n: nat)
    requires n < 0x1_0000_0000
    ensures Number32(Word32(n)) == n
  {
    hide ByteFrom, ByteValue;
    ByteBack(n % 256);
    ByteBack(n / 256 % 256);
    ByteBack(n / 65536 % 256);
    ByteBack(n / 16777216);
    FourDigits(n);
  }

  lemma FourDigits(n: nat)
    ensures n == n % 256 + 256 * (n / 256 % 256) + 65536 * (n / 65536 % 256) + 16777216 * (n / 16777216)
  {
    assert n / 65536 == n / 256 / 256 && n / 16777216 == n / 65536 / 256;
  }

  function Zeros(n: nat): (b: Bytes)
    ensures |b| == n
  {
    seq(n, _ => 0)
  }

  function DiskInode(e: Extent): (b: Bytes)
    requires e.start < 0x1_0000_0000 && e.length < INT_LIMIT
    ensures |b| == SECTOR_SIZE
  {
    Word32(e.start) + Word32(e.length) + Word32(INODE_MAGIC) + Zeros(500)
  }

  function ReadInode(b: Bytes): Extent
    requires |b| == SECTOR_SIZE
  {
    Extent(Number32(b[0..4]), Number32(b[4..8]))
  }

  lemma InodeBack(e: Extent)
    requires e.start < 0x1_0000_0000 && e.length < INT_LIMIT
    ensures ReadInode(DiskInode(e)) == e
  {
    hide Word32, Number32;
    var b := DiskInode(e);
    assert b[0..4] == Word32(e.start) && b[4..8] == Word32(e.length);
    Number32Back(e.start);
    Number32Back(e.length);
  }

  // ------------------------------------------------------------- the layout

  ghost predicate Fits(e: Extent, size: nat) {
    e.start + Sectors(e.length) <= size && e.length + SECTOR_SIZE <= INT_LIMIT
  }

  ghost predicate DiskOk(disk: seq<Bytes>) {
    |disk| < BITMAP_ERROR && forall i :: 0 <= i < |disk| ==> |disk[i]| == SECTOR_SIZE
  }

  ghost predicate Data(e: Extent, i: nat) {
    e.start <= i < e.start + Sectors(e.length)
  }

  /** Every file lies on the disk, its inode's sector says where, and all its sectors are its own. */
  ghost predicate FilesOk(disk: seq<Bytes>, files: map<nat, Extent>, owner: map<nat, nat>) {
    forall s: nat :: s in files ==> FileOk(disk, files[s], owner, s)
  }

  ghost predicate FileOk(disk: seq<Bytes>, e: Extent, owner: map<nat, nat>, s: nat) {
    && DiskOk(disk) && s < |disk| && Fits(e, |disk|)
    && disk[s] == DiskInode(e)
    && s in owner && owner[s] == s
    && forall i: nat :: Data(e, i) ==> i in owner && owner[i] == s && i != s
  }

  /** A sector is owned by at most one file, as its inode or its data; all owned or reserved sectors and no others are marked. */
  ghost predicate Marks(files: map<nat, Extent>, owner: map<nat, nat>, reserved: set<nat>, bits: seq<bool>) {
    && (forall i: nat :: i in owner ==> owner[i] in files && (i == owner[i] || Data(files[owner[i]], i)))
    && (forall i: nat :: i in owner || i in reserved ==> i < |bits|)
    && (forall i: nat :: !(i in owner && i in reserved))
    && forall i: nat :: i < |bits| ==> (bits[i] <==> i in owner || i in reserved)
  }

  ghost predicate Laid(disk: seq<Bytes>, files: map<nat, Extent>, owner: map<nat, nat>, reserved: set<nat>, bits: seq<bool>) {
    DiskOk(disk) && |bits| == |disk| && FilesOk(disk, files, owner) && Marks(files, owner, reserved, bits)
  }

  /** What the layout means: sectors of different files are different and marked. */
  lemma LaidApart(disk: seq<Bytes>, files: map<nat, Extent>, owner: map<nat, nat>, reserved: set<nat>, bits: seq<bool>,
                  s: nat, t: nat, i: nat)
    requires Laid(disk, files, owner, reserved, bits)
    requires s in files && t in files && s != t && (i == s || Data(files[s], i))
    ensures i != t && !Data(files[t], i) && i < |bits| && bits[i] && i !in reserved
  {
    hide DiskInode;
    assert FileOk(disk, files[s], owner, s) && FileOk(disk, files[t], owner, t);
  }

  /** The file as a flat array of bytes. */
  ghost function Content(disk: seq<Bytes>, e: Extent): (c: Bytes)
    requires DiskOk(disk) && Fits(e, |disk|)
    ensures |c| == e.length
  {
    seq(e.length, p requires 0 <= p < e.length => ByteAt(disk, e, p))
  }

  ghost function ByteAt(disk: seq<Bytes>, e: Extent, p: nat): bv8
    requires DiskOk(disk) && Fits(e, |disk|) && p < e.length
  {
    OffsetInside(e, p);
    disk[e.start + p / SECTOR_SIZE][p % SECTOR_SIZE]
  }

  lemma OffsetInside(e: Extent, p: nat)
    requires p < e.length
    ensures Data(e, e.start + p / SECTOR_SIZE)
  {
  }

  lemma ContentByData(disk: seq<Bytes>, disk': seq<Bytes>, e: Extent)
    requires DiskOk(disk) && DiskOk(disk') && |disk'| == |disk| && Fits(e, |disk|)
    requires forall i: nat :: Data(e, i) ==> disk'[i] == disk[i]
    ensures Content(disk', e) == Content(disk, e)
  {
    forall p: nat | p < e.length
      ensures ByteAt(disk', e, p) == ByteAt(disk, e, p)
    {
      OffsetInside(e, p);
    }
  }

  // --------------------------------------------------- a sector is written

  function Patched(c: Bytes, offset: nat, data: Bytes): (r: Bytes)
    requires offset + |data| <= |c|
    ensures |r| == |c|
  {
    c[..offset] + data + c[offset + |data|..]
  }

  lemma PatchOn(c: Bytes, offset: nat, a: Bytes, b: Bytes)
    requires offset + |a| + |b| <= |c|
    ensures Patched(Patched(c, offset, a), offset + |a|, b) == Patched(c, offset, a + b)
  {
  }

  /** A read finds what the last write left: the written bytes where it wrote, the old ones elsewhere. */
  lemma ReadAfterWrite(c: Bytes, offset: nat, data: Bytes, from: nat, read: Bytes)
    requires offset + |data| <= |c| && from + |read| <= |c|
    requires read == Patched(c, offset, data)[from..from + |read|]
    ensures from == offset && |read| == |data| ==> read == data
    ensures forall i: nat :: i < |read| ==>
      read[i] == if offset <= from + i < offset + |data| then data[from + i - offset] else c[from + i]
  {
    forall i: nat | i < |read|
      ensures read[i] == if offset <= from + i < offset + |data| then data[from + i - offset] else c[from + i]
    {
      assert read[i] == Patched(c, offset, data)[from + i];
    }
  }

  /** One chunk, which lies in one sector, is written. */
  lemma ChunkWritten(disk: seq<Bytes>, e: Extent, offset: nat, data: Bytes)
    requires DiskOk(disk) && Fits(e, |disk|) && offset + |data| <= e.length && data != []
    requires offset % SECTOR_SIZE + |data| <= SECTOR_SIZE
    ensures var k := e.start + offset / SECTOR_SIZE;
            && Data(e, k) && k < |disk|
            && Content(disk[k := Patched(disk[k], offset % SECTOR_SIZE, data)], e) == Patched(Content(disk, e), offset, data)
  {
    var k := e.start + offset / SECTOR_SIZE;
    OffsetInside(e, offset);
    var sector := Patched(disk[k], offset % SECTOR_SIZE, data);
    var disk' := disk[k := sector];
    forall p: nat | p < e.length
      ensures ByteAt(disk', e, p) == Patched(Content(disk, e), offset, data)[p]
    {
      OffsetInside(e, p);
      if p / SECTOR_SIZE == offset / SECTOR_SIZE {
        PlaceInSector(p, offset);
      } else {
        OtherSector(p, offset, |data|);
      }
    }
  }

  lemma PlaceInSector(p: nat, offset: nat)
    requires p / SECTOR_SIZE == offset / SECTOR_SIZE
    ensures p - offset == p % SECTOR_SIZE - offset % SECTOR_SIZE
  {
  }

  lemma OtherSector(p: nat, offset: nat, n: nat)
    requires p / SECTOR_SIZE != offset / SECTOR_SIZE && offset % SECTOR_SIZE + n <= SECTOR_SIZE
    ensures p < offset || p >= offset + n
  {
  }

  /** Writing a data sector of one file keeps the layout and every other file. */
  lemma DataWritten(disk: seq<Bytes>, files: map<nat, Extent>, owner: map<nat, nat>, reserved: set<nat>, bits: seq<bool>,
                    s: nat, k: nat, data: Bytes)
    requires Laid(disk, files, owner, reserved, bits) && s in files && Data(files[s], k) && |data| == SECTOR_SIZE
    ensures k < |disk| && Laid(disk[k := data], files, owner, reserved, bits)
    ensures OthersKept(disk, disk[k := data], files, s)
  {
    hide DiskInode;
    assert FileOk(disk, files[s], owner, s);
    SectorWritten(disk, files, owner, s, k, data);
  }

  /** Every file but `s` has the content it had. */
  ghost predicate OthersKept(disk: seq<Bytes>, disk': seq<Bytes>, files: map<nat, Extent>, s: nat) {
    && DiskOk(disk) && DiskOk(disk') && |disk| == |disk'|
    && forall t: nat :: t in files && t != s ==> Fits(files[t], |disk|) && Content(disk', files[t]) == Content(disk, files[t])
  }

  lemma SectorWritten(disk: seq<Bytes>, files: map<nat, Extent>, owner: map<nat, nat>, s: nat, k: nat, data: Bytes)
    requires DiskOk(disk) && FilesOk(disk, files, owner) && k < |disk| && |data| == SECTOR_SIZE
    requires k in owner ==> owner[k] == s && k != s
    ensures DiskOk(disk[k := data]) && FilesOk(disk[k := data], files, owner)
    ensures OthersKept(disk, disk[k := data], files, s)
    ensures k !in owner && s in files ==> Fits(files[s], |disk|) && Content(disk[k := data], files[s]) == Content(disk, files[s])
  {
    hide DiskInode;
    var disk' := disk[k := data];
    forall t: nat | t in files
      ensures FileOk(disk', files[t], owner, t)
      ensures t != s || k !in owner ==> Fits(files[t], |disk|) && Content(disk', files[t]) == Content(disk, files[t])
    {
      assert FileOk(disk, files[t], owner, t);
      if t != s || k !in owner {
        ContentByData(disk, disk', files[t]);
      }
    }
  }

  // ------------------------------------------- files come, files go

  ghost function Range(start: nat, cnt: nat): (r: set<nat>)
    ensures forall i :: i in r <==> start <= i < start + cnt
  {
    if cnt == 0 then {} else Range(start, cnt - 1) + {start + cnt - 1}
  }

  ghost function DataSet(e: Extent): (r: set<nat>)
    ensures forall i :: i in r <==> Data(e, i)
  {
    Range(e.start, Sectors(e.length))
  }

  ghost function Own(s: nat, e: Extent): set<nat> {
    {s} + DataSet(e)
  }

  ghost function Taken(owner: map<nat, nat>, s: nat, e: Extent): map<nat, nat> {
    owner + map i | i in Own(s, e) :: s
  }

  /** Unmarked sectors are nobody's; marked, they are reserved. */
  lemma RangeReserved(disk: seq<Bytes>, files: map<nat, Extent>, owner: map<nat, nat>, reserved: set<nat>, bits: seq<bool>,
                      start: nat, cnt: nat)
    requires Laid(disk, files, owner, reserved, bits) && Group(bits, start, cnt, false)
    ensures Laid(disk, files, owner, reserved + Range(start, cnt), Painted(bits, start, cnt, true))
    ensures forall i: nat :: i in Range(start, cnt) ==> i !in owner && i !in reserved
  {
    hide DiskInode;
  }

  lemma RangeReleased(disk: seq<Bytes>, files: map<nat, Extent>, owner: map<nat, nat>, reserved: set<nat>, bits: seq<bool>,
                      start: nat, cnt: nat)
    requires Laid(disk, files, owner, reserved, bits) && Range(start, cnt) <= reserved
    requires start + cnt <= |bits|
    ensures Group(bits, start, cnt, true)
    ensures Laid(disk, files, owner, reserved - Range(start, cnt), Painted(bits, start, cnt, false))
  {
    hide DiskInode;
    assert forall i: nat :: start <= i < start + cnt ==> i in Range(start, cnt);
  }

  /** Reserved sectors, one of them now an inode for the others, become a file. */
  lemma FileMade(disk: seq<Bytes>, files: map<nat, Extent>, owner: map<nat, nat>, reserved: set<nat>, bits: seq<bool>,
                 s: nat, e: Extent)
    requires Laid(disk, files, owner, reserved, bits)
    requires Own(s, e) <= reserved && !Data(e, s) && Fits(e, |disk|) && s < |disk| && disk[s] == DiskInode(e)
    ensures Laid(disk, files[s := e], Taken(owner, s, e), reserved - Own(s, e), bits)
    ensures s !in files
  {
    hide DiskInode;
    var files', owner' := files[s := e], Taken(owner, s, e);
    assert s in Own(s, e);
    assert s in files ==> FileOk(disk, files[s], owner, s);
    forall t: nat | t in files'
      ensures FileOk(disk, files'[t], owner', t)
    {
      if t != s {
        assert FileOk(disk, files[t], owner, t);
        assert t !in Own(s, e);
        assert forall i: nat :: Data(files[t], i) ==> i !in Own(s, e);
      } else {
        assert forall i: nat :: Data(e, i) ==> i in Own(s, e);
      }
    }
    MadeMarks(files, owner, reserved, bits, s, e);
  }

  lemma MadeMarks(files: map<nat, Extent>, owner: map<nat, nat>, reserved: set<nat>, bits: seq<bool>, s: nat, e: Extent)
    requires Marks(files, owner, reserved, bits) && Own(s, e) <= reserved && s !in files
    ensures Marks(files[s := e], Taken(owner, s, e), reserved - Own(s, e), bits)
  {
  }

  /** A file's sectors go back to the reserve; every other file stays. */
  lemma FileGone(disk: seq<Bytes>, files: map<nat, Extent>, owner: map<nat, nat>, reserved: set<nat>, bits: seq<bool>, s: nat)
    requires Laid(disk, files, owner, reserved, bits) && s in files
    ensures Laid(disk, files - {s}, owner - Own(s, files[s]), reserved + Own(s, files[s]), bits)
    ensures Fits(files[s], |disk|) && !Data(files[s], s)
  {
    hide Marks, Fits, Sectors, DiskOk, DiskInode;
    var e := files[s];
    assert FileOk(disk, e, owner, s);
    var own := Own(s, e);
    assert forall i: nat :: i in own ==> i in owner && owner[i] == s;
    forall t: nat | t in files - {s}
      ensures FileOk(disk, (files - {s})[t], owner - own, t)
    {
      OtherStays(disk, files[t], owner, t, own, s);
    }
    GoneMarks(files, owner, reserved, bits, s);
  }

  lemma OtherStays(disk: seq<Bytes>, e: Extent, owner: map<nat, nat>, t: nat, own: set<nat>, s: nat)
    requires FileOk(disk, e, owner, t) && s != t
    requires forall i: nat :: i in own ==> i in owner && owner[i] == s
    ensures FileOk(disk, e, owner - own, t)
  {
    hide DiskInode;
  }

  lemma GoneMarks(files: map<nat, Extent>, owner: map<nat, nat>, reserved: set<nat>, bits: seq<bool>, s: nat)
    requires Marks(files, owner, reserved, bits) && s in files
    requires forall i: nat :: i in Own(s, files[s]) ==> i in owner && owner[i] == s
    ensures Marks(files - {s}, owner - Own(s, files[s]), reserved + Own(s, files[s]), bits)
  {
    var owner' := owner - Own(s, files[s]);
    forall i: nat | i in owner'
      ensures owner'[i] in files - {s}
    {
      assert i !in Own(s, files[s]);
    }
  }

  lemma ZeroContent(disk: seq<Bytes>, e: Extent)
    requires DiskOk(disk) && Fits(e, |disk|)
    requires forall i: nat :: Data(e, i) ==> disk[i] == Zeros(SECTOR_SIZE)
    ensures Content(disk, e) == Zeros(e.length)
  {
    forall p: nat | p < e.length
      ensures ByteAt(disk, e, p) == 0
    {
      OffsetInside(e, p);
    }
  }

  /** Writing a reserved sector keeps the layout and every file. */
  lemma ReserveWritten(disk: seq<Bytes>, files: map<nat, Extent>, owner: map<nat, nat>, reserved: set<nat>, bits: seq<bool>,
                       s: nat, k: nat, data: Bytes)
    requires Laid(disk, files, owner, reserved, bits) && k in reserved && |data| == SECTOR_SIZE
    ensures k < |disk| && Laid(disk[k := data], files, owner, reserved, bits)
    ensures OthersKept(disk, disk[k := data], files, s)
  {
    hide DiskInode, OthersKept, FileOk;
    SectorWritten(disk, files, owner, s, k, data);
  }
}

