/** pintos/filesys/inode.c and free-map.c: files on a disk of sectors, with the
    free map in memory and in a file of its own. Every file is a flat array of
    bytes, and no operation touches the bytes of a file it was not given. */
module Inodes {
  import opened Bitmaps
  import opened DiskLayout

  const FREE_MAP_SECTOR: nat := 0
  const ROOT_DIR_SECTOR: nat := 1

  // --------------------------------------------------- counts of a transfer

  function Least(a: int, b: int): int {
    if a < b then a else b
  }

  /** The bytes asked for that the file has. */
  function Available(size: int, offset: nat, length: nat): nat {
    if size <= 0 || offset >= length then 0 else Least(size, length - offset)
  }

  /** What a read or write moves: all that is available, or, without memory
      for the bounce buffer, the whole sectors before the first partial one. */
  function Transferred(size: int, offset: nat, length: nat, memory: bool): nat {
    var n := Available(size, offset, length);
    if memory then n else if offset % SECTOR_SIZE != 0 then 0 else n - n % SECTOR_SIZE
  }

  function Chunk(left: int, pos: nat, length: nat): int {
    Least(left, Least(length - pos, SECTOR_SIZE - pos % SECTOR_SIZE))
  }

  predicate WholeSector(pos: nat, chunk: int) {
    pos % SECTOR_SIZE == 0 && chunk == SECTOR_SIZE
  }

  ghost predicate Progress(size: int, offset: nat, length: nat, memory: bool, bounce: bool, done: nat) {
    && done <= Available(size, offset, length) && (bounce ==> memory)
    && (!bounce ==> done == 0 || (offset % SECTOR_SIZE == 0 && done % SECTOR_SIZE == 0))
  }

  lemma ChunkMoves(size: int, offset: nat, length: nat, memory: bool, bounce: bool, done: nat, chunk: int)
    requires Progress(size, offset, length, memory, bounce, done) && size - done > 0
    requires chunk == Chunk(size - done, offset + done, length) && chunk > 0
    ensures offset + done + chunk <= length && done + chunk <= size && (offset + done) % SECTOR_SIZE + chunk <= SECTOR_SIZE
    ensures WholeSector(offset + done, chunk) ==> Progress(size, offset, length, memory, bounce, done + chunk)
    ensures bounce || memory ==> Progress(size, offset, length, memory, true, done + chunk)
  {
    if WholeSector(offset + done, chunk) && !bounce {
      WholeMore(offset, done);
    }
  }

  lemma WholeMore(offset: nat, done: nat)
    requires (offset + done) % SECTOR_SIZE == 0 && (done == 0 || (offset % SECTOR_SIZE == 0 && done % SECTOR_SIZE == 0))
    ensures offset % SECTOR_SIZE == 0 && (done + SECTOR_SIZE) % SECTOR_SIZE == 0
  {
  }

  lemma AllMoved(size: int, offset: nat, length: nat, memory: bool, bounce: bool, done: nat)
    requires Progress(size, offset, length, memory, bounce, done)
    requires size - done <= 0 || Chunk(size - done, offset + done, length) <= 0
    ensures done == Transferred(size, offset, length, memory)
  {
  }

  lemma StuckWithoutMemory(size: int, offset: nat, length: nat, done: nat, chunk: int)
    requires Progress(size, offset, length, false, false, done) && size - done > 0
    requires chunk == Chunk(size - done, offset + done, length) && chunk > 0 && !WholeSector(offset + done, chunk)
    ensures done == Transferred(size, offset, length, false)
  {
    if offset % SECTOR_SIZE == 0 {
      WholeSofar(offset, done);
      Remainder(Available(size, offset, length), done);
    }
  }

  lemma WholeSofar(offset: nat, done: nat)
    requires offset % SECTOR_SIZE == 0 && done % SECTOR_SIZE == 0
    ensures (offset + done) % SECTOR_SIZE == 0
  {
  }

  lemma Remainder(n: nat, done: nat)
    requires done % SECTOR_SIZE == 0 && done <= n < done + SECTOR_SIZE
    ensures done == n - n % SECTOR_SIZE
  {
  }

  /** With memory, as many bytes as were asked for and the file has. */
  lemma TransferIsExact(size: int, offset: nat, length: nat, memory: bool)
    ensures Transferred(size, offset, length, memory) <= Available(size, offset, length)
    ensures Available(size, offset, length) == if size <= 0 || offset >= length then 0 else Least(size, length - offset)
    ensures Transferred(size, offset, length, memory) == Available(size, offset, length) <==>
      memory || Available(size, offset, length) == 0
      || (offset % SECTOR_SIZE == 0 && Available(size, offset, length) % SECTOR_SIZE == 0)
  {
  }

  /** The data, if there is any, laid over the content from `offset` on. */
  ghost function Over(c: Bytes, offset: nat, data: Bytes): (r: Bytes)
    ensures |r| == |c|
  {
    if data == [] || offset + |data| > |c| then c else Patched(c, offset, data)
  }

  /** The data, if there is any, is what the content has from `offset` on. */
  ghost predicate Within(data: Bytes, c: Bytes, offset: nat) {
    data == [] || (offset + |data| <= |c| && data == c[offset..offset + |data|])
  }

  lemma WholeOver(c: Bytes, data: Bytes)
    requires |data| <= |c|
    ensures Over(c, 0, data)[..|data|] == data
  {
  }

  lemma ImageLength(ws: seq<bv64>)
    ensures |Image(ws)| == 8 * |ws|
  {
  }

  lemma OverMore(c: Bytes, offset: nat, buffer: Bytes, done: nat, chunk: nat)
    requires 0 < chunk && done + chunk <= |buffer| && offset + done + chunk <= |c|
    ensures Patched(Over(c, offset, buffer[..done]), offset + done, buffer[done..done + chunk]) == Over(c, offset, buffer[..done + chunk])
  {
    assert buffer[..done + chunk] == buffer[..done] + buffer[done..done + chunk];
    if done > 0 {
      PatchOn(c, offset, buffer[..done], buffer[done..done + chunk]);
    }
  }

  lemma ChunkRead(disk: seq<Bytes>, e: Extent, pos: nat, chunk: nat)
    requires DiskOk(disk) && Fits(e, |disk|) && pos + chunk <= e.length && 0 < chunk
    requires pos % SECTOR_SIZE + chunk <= SECTOR_SIZE
    ensures Data(e, e.start + pos / SECTOR_SIZE)
    ensures disk[e.start + pos / SECTOR_SIZE][pos % SECTOR_SIZE..pos % SECTOR_SIZE + chunk] == Content(disk, e)[pos..pos + chunk]
  {
    OffsetInside(e, pos);
    var part := disk[e.start + pos / SECTOR_SIZE][pos % SECTOR_SIZE..pos % SECTOR_SIZE + chunk];
    forall i: nat | i < chunk
      ensures part[i] == Content(disk, e)[pos..pos + chunk][i]
    {
      SameSector(pos, i);
      assert Content(disk, e)[pos + i] == ByteAt(disk, e, pos + i);
    }
  }

  lemma SameSector(pos: nat, i: nat)
    requires pos % SECTOR_SIZE + i < SECTOR_SIZE
    ensures (pos + i) / SECTOR_SIZE == pos / SECTOR_SIZE && (pos + i) % SECTOR_SIZE == pos % SECTOR_SIZE + i
  {
  }

  lemma SameKept(disk: seq<Bytes>, files: map<nat, Extent>, owner: map<nat, nat>, s: nat)
    requires DiskOk(disk) && FilesOk(disk, files, owner)
    ensures OthersKept(disk, disk, files, s)
  {
    hide DiskInode;
    forall t: nat | t in files
      ensures Fits(files[t], |disk|)
    {
      assert FileOk(disk, files[t], owner, t);
    }
  }

  lemma WholePatch(sector: Bytes, data: Bytes)
    requires |sector| == |data|
    ensures Patched(sector, 0, data) == data
  {
  }

  lemma KeptAgain(a: seq<Bytes>, b: seq<Bytes>, c: seq<Bytes>, files: map<nat, Extent>, s: nat)
    requires OthersKept(a, b, files, s) && OthersKept(b, c, files, s)
    ensures OthersKept(a, c, files, s)
  {
  }

  /** The state of a read: the buffer holds what the file has at its place. */
  ghost predicate Reading(disk: seq<Bytes>, e: Extent, size: int, offset: nat, memory: bool, bounce: bool, buffer: Bytes) {
    && DiskOk(disk) && Fits(e, |disk|) && Progress(size, offset, e.length, memory, bounce, |buffer|)
    && (buffer != [] ==> offset + |buffer| <= e.length && buffer == Content(disk, e)[offset..offset + |buffer|])
  }

  lemma ReadMoves(disk: seq<Bytes>, e: Extent, size: int, offset: nat, memory: bool, bounce: bool, buffer: Bytes, chunk: int)
    requires Reading(disk, e, size, offset, memory, bounce, buffer) && size - |buffer| > 0
    requires chunk == Chunk(size - |buffer|, offset + |buffer|, e.length) && chunk > 0
    ensures var pos := offset + |buffer|;
            && pos + chunk <= e.length && pos % SECTOR_SIZE + chunk <= SECTOR_SIZE
            && var next := buffer + Content(disk, e)[pos..pos + chunk];
            && |next| == |buffer| + chunk
            && (WholeSector(pos, chunk) ==> Reading(disk, e, size, offset, memory, bounce, next))
            && (bounce || memory ==> Reading(disk, e, size, offset, memory, true, next))
  {
    hide Progress, Chunk, Content, WholeSector;
    ChunkMoves(size, offset, e.length, memory, bounce, |buffer|, chunk);
  }

  /** The state of a write: the file is what it was with the written bytes laid over. */
  ghost predicate Writing(disk: seq<Bytes>, before: Bytes, e: Extent, buffer: Bytes, size: int, offset: nat,
                          memory: bool, bounce: bool, written: nat)
  {
    && DiskOk(disk) && Fits(e, |disk|) && Progress(size, offset, e.length, memory, bounce, written)
    && |before| == e.length && written <= |buffer| && (written > 0 ==> offset + written <= e.length)
    && Content(disk, e) == Over(before, offset, buffer[..written])
  }

  lemma WriteMoves(disk: seq<Bytes>, before: Bytes, e: Extent, buffer: Bytes, size: int, offset: nat,
                   memory: bool, bounce: bool, written: nat, chunk: int)
    requires Writing(disk, before, e, buffer, size, offset, memory, bounce, written) && size <= |buffer| && size - written > 0
    requires chunk == Chunk(size - written, offset + written, e.length) && chunk > 0
    ensures var pos := offset + written;
            && pos + chunk <= e.length && pos % SECTOR_SIZE + chunk <= SECTOR_SIZE && written + chunk <= |buffer|
            && forall disk' ::
              (&& DiskOk(disk') && |disk'| == |disk|
               && Content(disk', e) == Patched(Content(disk, e), pos, buffer[written..written + chunk])) ==>
              && (WholeSector(pos, chunk) ==> Writing(disk', before, e, buffer, size, offset, memory, bounce, written + chunk))
              && (bounce || memory ==> Writing(disk', before, e, buffer, size, offset, memory, true, written + chunk))
  {
    hide Progress, Chunk, Content, WholeSector, DiskOk, Fits, Patched, Over;
    ChunkMoves(size, offset, e.length, memory, bounce, written, chunk);
    OverMore(before, offset, buffer, written, chunk);
  }

  /** What a process may ask for by the sector of a file. */
  datatype FileOp =
    | Open(sector: nat, memory: bool) | Reopen(sector: nat) | Remove(sector: nat) | Close(sector: nat, memory1: bool, memory2: bool)

  /** Files may have gone; those that are left are in their place with the content they had, but for the free map's. */
  ghost predicate KeptFiles(disk: seq<Bytes>, disk': seq<Bytes>, files: map<nat, Extent>, files': map<nat, Extent>) {
    && (forall s: nat :: s in files' ==> s in files && files'[s] == files[s])
    && |disk| == |disk'| && OthersKept(disk, disk', files', FREE_MAP_SECTOR)
  }

  // -------------------------------------------------------- the file system

  /** struct inode: one in memory for each open file. */
  class Inode {
    const sector: nat
    var openCnt: nat
    var removed: bool
    var denyWriteCnt: nat
    const start: nat
    const length: nat

    constructor (sector: nat, e: Extent)
      ensures this.sector == sector && Extent(start, length) == e
      ensures openCnt == 1 && denyWriteCnt == 0 && !removed
    {
      this.sector, start, length := sector, e.start, e.length;
      openCnt, denyWriteCnt, removed := 1, 0, false;
    }

    ghost function Place(): Extent {
      Extent(start, length)
    }
  }

  class FileSystem {
    const freeMap: Bitmap
    var disk: seq<Bytes>
    var freeMapFile: Inode?
    var openInodes: seq<Inode>
    /** The live files by the sector of their inode, the owner of each sector in a
        file, and the sectors that are allocated but in no file. */
    ghost var files: map<nat, Extent>
    ghost var owner: map<nat, nat>
    ghost var reserved: set<nat>

    ghost predicate Valid()
      reads this, freeMap.bits, openInodes
    {
      freeMap.Valid() && Laid(disk, files, owner, reserved, freeMap.Contents()) && OpenOk()
    }

    ghost predicate OpenOk()
      reads `openInodes, `files, `freeMapFile, openInodes
    {
      OpenOkFor(files)
    }

    /** One inode in memory for each open file, with the place the file has, and the free map's file never removed. */
    ghost predicate OpenOkFor(files: map<nat, Extent>)
      reads `openInodes, `freeMapFile, openInodes
    {
      && (forall i: nat :: i < |openInodes| ==> InodeOk(openInodes[i], files))
      && (forall i: nat, j: nat :: i < j < |openInodes| ==> openInodes[i].sector != openInodes[j].sector)
      && (freeMapFile != null ==>
           freeMapFile in openInodes && freeMapFile.sector == FREE_MAP_SECTOR && !freeMapFile.removed)
    }

    ghost predicate InodeOk(inode: Inode, files: map<nat, Extent>)
      reads inode
    {
      inode.sector in files && inode.Place() == files[inode.sector] && inode.denyWriteCnt <= inode.openCnt && inode.openCnt > 0
    }

    /** free_map_init and inode_init: nothing but the two fixed inode sectors is in use. */
    constructor (disk: seq<Bytes>)
      requires DiskOk(disk) && |disk| > ROOT_DIR_SECTOR
      ensures Valid() && this.disk == disk && fresh(freeMap) && fresh(freeMap.bits)
      ensures files == map[] && owner == map[] && reserved == {FREE_MAP_SECTOR, ROOT_DIR_SECTOR}
      ensures openInodes == [] && freeMapFile == null
    {
      var map0 := new Bitmap(|disk|);
      map0.Mark(FREE_MAP_SECTOR);
      map0.Mark(ROOT_DIR_SECTOR);
      freeMap := map0;
      this.disk, freeMapFile, openInodes := disk, null, [];
      files, owner, reserved := map[], map[], {FREE_MAP_SECTOR, ROOT_DIR_SECTOR};
    }

    ghost function FileContent(s: nat): Bytes
      requires Valid() && s in files
      reads this, freeMap.bits, openInodes
    {
      assert FileOk(disk, files[s], owner, s);
      Content(disk, files[s])
    }

    function ByteToSector(inode: Inode, pos: nat): nat {
      if pos < inode.length then inode.start + pos / SECTOR_SIZE else 0xFFFF_FFFF
    }

    lemma InodeIsFile(inode: Inode)
      requires Valid() && inode in openInodes
      ensures inode.sector in files && files[inode.sector] == inode.Place() && Fits(inode.Place(), |disk|) && DiskOk(disk)
      ensures InodeOk(inode, files) && inode.sector < |disk|
    {
      var i: nat :| i < |openInodes| && openInodes[i] == inode;
      assert InodeOk(openInodes[i], files);
      assert FileOk(disk, files[inode.sector], owner, inode.sector);
    }

    /** One sector is read, whole or through the bounce buffer. */
    method ReadChunk(inode: Inode, pos: nat, chunk: nat) returns (part: Bytes)
      requires DiskOk(disk) && Fits(inode.Place(), |disk|) && pos + chunk <= inode.length && 0 < chunk
      requires pos % SECTOR_SIZE + chunk <= SECTOR_SIZE
      ensures part == Content(disk, inode.Place())[pos..pos + chunk]
    {
      hide Content;
      var sectorIdx := ByteToSector(inode, pos);
      var sectorOfs := pos % SECTOR_SIZE;
      ChunkRead(disk, inode.Place(), pos, chunk);
      if sectorOfs == 0 && chunk == SECTOR_SIZE {
        part := disk[sectorIdx];
      } else {
        var bounce := disk[sectorIdx];
        part := bounce[sectorOfs..sectorOfs + chunk];
      }
    }

    method ReadAt(inode: Inode, size: int, offset: nat, memory: bool) returns (buffer: Bytes)
      requires DiskOk(disk) && Fits(inode.Place(), |disk|)
      ensures |buffer| == Transferred(size, offset, inode.length, memory)
      ensures Within(buffer, Content(disk, inode.Place()), offset)
    {
      hide Content, Reading, Chunk, Transferred, WholeSector, Fits, DiskOk;
      ghost var e := inode.Place();
      buffer := [];
      var left, pos := size, offset;
      var bounce := false;
      ReadStarts(disk, e, size, offset, memory);
      while left > 0
        invariant left == size - |buffer| && pos == offset + |buffer|
        invariant Reading(disk, e, size, offset, memory, bounce, buffer)
        decreases left
      {
        var chunk := Chunk(left, pos, inode.length);
        if chunk <= 0 {
          break;
        }
        ReadMoves(disk, e, size, offset, memory, bounce, buffer, chunk);
        if !WholeSector(pos, chunk) {
          if !bounce {
            if !memory {
              break;
            }
            bounce := true;
          }
        }
        var part := ReadChunk(inode, pos, chunk);
        left, pos, buffer := left - chunk, pos + chunk, buffer + part;
      }
      ReadEnds(disk, e, size, offset, memory, bounce, buffer);
    }

    /** An open inode of a valid system may be read, and what is read is its file. */
    lemma OpenIsReadable(inode: Inode)
      requires Valid() && inode in openInodes
      ensures DiskOk(disk) && Fits(inode.Place(), |disk|)
      ensures inode.sector in files && Content(disk, inode.Place()) == FileContent(inode.sector)
    {
      InodeIsFile(inode);
      FileContentIs(inode.sector);
    }

    lemma FileContentIs(s: nat)
      requires Valid() && s in files
      ensures DiskOk(disk) && Fits(files[s], |disk|) && FileContent(s) == Content(disk, files[s])
    {
      assert FileOk(disk, files[s], owner, s);
    }

    lemma ValidParts()
      requires Valid()
      ensures freeMap.Valid() && Laid(disk, files, owner, reserved, freeMap.Contents()) && OpenOk()
    {
    }

    lemma ValidAgain()
      requires freeMap.Valid() && Laid(disk, files, owner, reserved, freeMap.Contents()) && OpenOk()
      ensures Valid()
    {
    }

    lemma ReadStarts(disk: seq<Bytes>, e: Extent, size: int, offset: nat, memory: bool)
      requires DiskOk(disk) && Fits(e, |disk|)
      ensures Reading(disk, e, size, offset, memory, false, [])
    {
    }

    /** A read ends when there is no more to read, or at a partial sector without memory. */
    lemma ReadEnds(disk: seq<Bytes>, e: Extent, size: int, offset: nat, memory: bool, bounce: bool, buffer: Bytes)
      requires Reading(disk, e, size, offset, memory, bounce, buffer)
      requires var left, pos := size - |buffer|, offset + |buffer|;
               left <= 0 || Chunk(left, pos, e.length) <= 0 || (!bounce && !memory && !WholeSector(pos, Chunk(left, pos, e.length)))
      ensures |buffer| == Transferred(size, offset, e.length, memory)
      ensures DiskOk(disk) && Fits(e, |disk|) && Within(buffer, Content(disk, e), offset)
    {
      hide Content, Progress, Chunk, Transferred, WholeSector;
      TransferEnds(size, offset, e.length, memory, bounce, |buffer|);
    }

    lemma TransferEnds(size: int, offset: nat, length: nat, memory: bool, bounce: bool, done: nat)
      requires Progress(size, offset, length, memory, bounce, done)
      requires var left, pos := size - done, offset + done;
               left <= 0 || Chunk(left, pos, length) <= 0 || (!bounce && !memory && !WholeSector(pos, Chunk(left, pos, length)))
      ensures done == Transferred(size, offset, length, memory)
    {
      hide Progress, Chunk, Transferred, WholeSector;
      var left, pos := size - done, offset + done;
      if left <= 0 || Chunk(left, pos, length) <= 0 {
        AllMoved(size, offset, length, memory, bounce, done);
      } else {
        StuckWithoutMemory(size, offset, length, done, Chunk(left, pos, length));
      }
    }

    /** One sector is written, whole, or after its other bytes have been read. */
    method WriteChunk(inode: Inode, pos: nat, data: Bytes, ghost bits: seq<bool>)
      requires Laid(disk, files, owner, reserved, bits) && inode.sector in files && inode.Place() == files[inode.sector]
      requires Fits(inode.Place(), |disk|) && pos + |data| <= inode.length && data != []
      requires pos % SECTOR_SIZE + |data| <= SECTOR_SIZE
      modifies `disk
      ensures Laid(disk, files, owner, reserved, bits) && |disk| == old(|disk|)
      ensures Content(disk, inode.Place()) == Patched(old(Content(disk, inode.Place())), pos, data)
      ensures OthersKept(old(disk), disk, files, inode.sector)
    {
      hide Content, FilesOk, Marks, OthersKept, DiskInode, Sectors;
      var sectorIdx := ByteToSector(inode, pos);
      var sectorOfs := pos % SECTOR_SIZE;
      ChunkWritten(disk, inode.Place(), pos, data);
      DataWritten(disk, files, owner, reserved, bits, inode.sector, sectorIdx, Patched(disk[sectorIdx], sectorOfs, data));
      if sectorOfs == 0 && |data| == SECTOR_SIZE {
        WholePatch(disk[sectorIdx], data);
        disk := disk[sectorIdx := data];
      } else {
        var bounce := disk[sectorIdx];
        bounce := Patched(bounce, sectorOfs, data);
        disk := disk[sectorIdx := bounce];
      }
    }

    method WriteAt(inode: Inode, buffer: Bytes, size: int, offset: nat, memory: bool) returns (written: nat)
      requires Valid() && inode in openInodes && size <= |buffer|
      modifies `disk
      ensures Valid() && inode.sector in files && |disk| == old(|disk|)
      ensures written == if inode.denyWriteCnt > 0 then 0 else Transferred(size, offset, inode.length, memory)
      ensures written <= |buffer| && FileContent(inode.sector) == Over(old(FileContent(inode.sector)), offset, buffer[..written])
      ensures OthersKept(old(disk), disk, files, inode.sector)
    {
      hide Content, Laid, Writing, Chunk, Transferred, OpenOk, WholeSector, OthersKept, Patched, DiskOk, Fits, Valid, FileContent, InodeOk;
      InodeIsFile(inode);
      FileContentIs(inode.sector);
      ValidParts();
      ghost var e, bits, s := inode.Place(), freeMap.Contents(), inode.sector;
      NothingKept(disk, files, owner, reserved, bits, s);
      if inode.denyWriteCnt > 0 {
        return 0;
      }
      ghost var before := Content(disk, e);
      var left, pos := size, offset;
      written := 0;
      var bounce := false;
      WriteStarts(disk, e, buffer, size, offset, memory);
      while left > 0
        invariant left == size - written && pos == offset + written
        invariant Writing(disk, before, e, buffer, size, offset, memory, bounce, written)
        invariant Laid(disk, files, owner, reserved, bits) && |disk| == old(|disk|)
        invariant OthersKept(old(disk), disk, files, s)
      {
        var chunk := Chunk(left, pos, inode.length);
        if chunk <= 0 {
          break;
        }
        WriteMoves(disk, before, e, buffer, size, offset, memory, bounce, written, chunk);
        if !WholeSector(pos, chunk) {
          if !bounce {
            if !memory {
              break;
            }
            bounce := true;
          }
        }
        ghost var was := disk;
        WriteChunk(inode, pos, buffer[written..written + chunk], bits);
        KeptAgain(old(disk), was, disk, files, s);
        left, pos, written := left - chunk, pos + chunk, written + chunk;
      }
      WriteEnds(disk, before, e, buffer, size, offset, memory, bounce, written);
      ValidAgain();
      FileContentIs(s);
    }

    lemma NothingKept(disk: seq<Bytes>, files: map<nat, Extent>, owner: map<nat, nat>, reserved: set<nat>, bits: seq<bool>, s: nat)
      requires Laid(disk, files, owner, reserved, bits)
      ensures OthersKept(disk, disk, files, s)
    {
      hide FilesOk, Marks, OthersKept;
      SameKept(disk, files, owner, s);
    }

    lemma WriteStarts(disk: seq<Bytes>, e: Extent, buffer: Bytes, size: int, offset: nat, memory: bool)
      requires DiskOk(disk) && Fits(e, |disk|)
      ensures Writing(disk, Content(disk, e), e, buffer, size, offset, memory, false, 0)
    {
      hide Content;
    }

    lemma WriteEnds(disk: seq<Bytes>, before: Bytes, e: Extent, buffer: Bytes, size: int, offset: nat,
                    memory: bool, bounce: bool, written: nat)
      requires Writing(disk, before, e, buffer, size, offset, memory, bounce, written)
      requires var left, pos := size - written, offset + written;
               left <= 0 || Chunk(left, pos, e.length) <= 0 || (!bounce && !memory && !WholeSector(pos, Chunk(left, pos, e.length)))
      ensures written == Transferred(size, offset, e.length, memory)
      ensures DiskOk(disk) && Fits(e, |disk|) && |before| == e.length && written <= |buffer|
      ensures Content(disk, e) == Over(before, offset, buffer[..written])
    {
      hide Content, Progress, Chunk, Transferred, WholeSector, Patched;
      TransferEnds(size, offset, e.length, memory, bounce, written);
    }

    // ------------------------------------------------------- the free map

    ghost predicate Writable(memory: bool)
      requires freeMapFile != null && freeMap.Valid()
      reads `freeMapFile, freeMapFile
    {
      && freeMapFile.denyWriteCnt == 0
      && Transferred(8 * freeMap.bits.Length, 0, freeMapFile.length, memory) == 8 * freeMap.bits.Length
    }

    /** The free map file holds the free map. */
    ghost predicate Saved()
      requires Valid()
      reads this, freeMap.bits, openInodes
    {
      && FREE_MAP_SECTOR in files && 8 * freeMap.bits.Length <= |FileContent(FREE_MAP_SECTOR)|
      && FileContent(FREE_MAP_SECTOR)[..8 * freeMap.bits.Length] == Image(freeMap.bits[..])
    }

    /** bitmap_write. */
    method BitmapWrite(memory: bool) returns (ok: bool)
      requires Valid() && freeMapFile != null
      modifies `disk
      ensures Valid() && |disk| == old(|disk|) && OthersKept(old(disk), disk, files, FREE_MAP_SECTOR)
      ensures ok <==> Writable(memory)
      ensures ok ==> Saved()
    {
      hide Content, Laid, Transferred, OthersKept, Image, FileContent;
      InodeIsFile(freeMapFile);
      OpenIsReadable(freeMapFile);
      MapHasWords();
      ghost var before := FileContent(FREE_MAP_SECTOR);
      var image := Image(freeMap.bits[..]);
      var size := 8 * freeMap.bits.Length;
      ImageLength(freeMap.bits[..]);
      TransferIsExact(size, 0, freeMapFile.length, memory);
      var written := WriteAt(freeMapFile, image, size, 0, memory);
      ok := written == size;
      if ok {
        assert image[..size] == image;
        WholeOver(before, image);
      }
    }

    lemma MapHasWords()
      requires Valid() && |disk| > 0
      ensures freeMap.bits.Length > 0
    {
    }

    /** Some group of `cnt` unmarked sectors. */
    ghost predicate Room(bits: seq<bool>, cnt: nat) {
      exists j: nat :: Group(bits, j, cnt, false)
    }

    method FreeMapAllocate(cnt: nat, memory: bool) returns (ok: bool, sector: nat)
      requires Valid()
      modifies `disk, `reserved, freeMap.bits
      ensures Valid() && |disk| == old(|disk|) && OthersKept(old(disk), disk, files, FREE_MAP_SECTOR)
      ensures freeMapFile == null ==> disk == old(disk)
      ensures ok <==> Room(old(freeMap.Contents()), cnt) && (freeMapFile != null ==> Writable(memory))
      ensures ok ==> sector != BITMAP_ERROR && FirstGroup(old(freeMap.Contents()), 0, cnt, false, sector)
      ensures ok ==> freeMap.Contents() == Painted(old(freeMap.Contents()), sector, cnt, true)
      ensures ok ==> reserved == old(reserved) + Range(sector, cnt) && Range(sector, cnt) !! old(reserved)
      ensures ok && freeMapFile != null ==> Saved()
      ensures !ok ==> freeMap.Contents() == old(freeMap.Contents()) && reserved == old(reserved)
    {
      hide Laid, OthersKept, Transferred, OpenOk, FileContent, Image, Group, FirstGroup;
      ghost var bits := freeMap.Contents();
      NothingKept(disk, files, owner, reserved, bits, FREE_MAP_SECTOR);
      sector := freeMap.ScanAndFlip(0, cnt, false);
      RoomFound(bits, cnt, sector);
      if sector == BITMAP_ERROR {
        HeldSame(freeMap.bits[..], old(freeMap.bits[..]));
        return false, sector;
      }
      RangeReserved(disk, files, owner, reserved, bits, sector, cnt);
      reserved := reserved + Range(sector, cnt);
      if freeMapFile != null {
        ok := BitmapWrite(memory);
        if !ok {
          freeMap.SetMultiple(sector, cnt, false);
          FlipUndone(bits, sector, cnt, false);
          RangeReleased(disk, files, owner, reserved, Painted(bits, sector, cnt, true), sector, cnt);
          reserved := reserved - Range(sector, cnt);
          assert reserved == old(reserved);
          return false, BITMAP_ERROR;
        }
      }
      ok := true;
    }

    lemma HeldSame(a: seq<bv64>, b: seq<bv64>)
      requires a == b
      ensures forall n: nat :: |a| == ElemCnt(n) ==> BitsOf(a, n) == BitsOf(b, n)
    {
    }

    lemma RoomFound(bits: seq<bool>, cnt: nat, idx: nat)
      requires FirstGroup(bits, 0, cnt, false, idx)
      ensures Room(bits, cnt) <==> idx != BITMAP_ERROR
      ensures idx != BITMAP_ERROR ==> Group(bits, idx, cnt, false)
    {
    }

    method FreeMapRelease(sector: nat, cnt: nat, memory: bool)
      requires Valid() && freeMapFile != null
      requires sector + cnt <= |disk| && Range(sector, cnt) <= reserved
      modifies `disk, `reserved, freeMap.bits
      ensures Valid() && |disk| == old(|disk|) && OthersKept(old(disk), disk, files, FREE_MAP_SECTOR)
      ensures sector + cnt <= |old(freeMap.Contents())| && freeMap.Contents() == Painted(old(freeMap.Contents()), sector, cnt, false)
      ensures reserved == old(reserved) - Range(sector, cnt)
      ensures Writable(memory) ==> Saved()
    {
      hide Laid, OthersKept, Transferred, OpenOk, FileContent, Image, Group;
      ghost var bits := freeMap.Contents();
      LaidSizes(disk, files, owner, reserved, bits);
      RangeReleased(disk, files, owner, reserved, bits, sector, cnt);
      var unmarked := freeMap.Contains(sector, cnt, false);
      assert !unmarked;
      freeMap.SetMultiple(sector, cnt, false);
      reserved := reserved - Range(sector, cnt);
      var ok := BitmapWrite(memory);
    }

    lemma LaidSizes(disk: seq<Bytes>, files: map<nat, Extent>, owner: map<nat, nat>, reserved: set<nat>, bits: seq<bool>)
      requires Laid(disk, files, owner, reserved, bits)
      ensures |bits| == |disk| < BITMAP_ERROR
    {
    }

    // -------------------------------------------------- the life of an inode

    /** The new inode's sector is written, and zeros in the data sectors. */
    method Clear(sector: nat, e: Extent, sectors: nat, ghost bits: seq<bool>)
      requires Laid(disk, files, owner, reserved, bits) && Own(sector, e) <= reserved && !Data(e, sector)
      requires Fits(e, |disk|) && sectors == Sectors(e.length)
      modifies `disk
      ensures Laid(disk, files, owner, reserved, bits) && |disk| == old(|disk|) && OthersKept(old(disk), disk, files, FREE_MAP_SECTOR)
      ensures sector < |disk| && disk[sector] == DiskInode(e) && Content(disk, e) == Zeros(e.length)
    {
      hide DiskInode, Marks, FilesOk, OthersKept, Content, Sectors;
      NothingKept(disk, files, owner, reserved, bits, FREE_MAP_SECTOR);
      assert sector in Own(sector, e);
      ReserveWritten(disk, files, owner, reserved, bits, FREE_MAP_SECTOR, sector, DiskInode(e));
      disk := disk[sector := DiskInode(e)];
      for i := 0 to sectors
        invariant Laid(disk, files, owner, reserved, bits) && |disk| == old(|disk|)
        invariant OthersKept(old(disk), disk, files, FREE_MAP_SECTOR)
        invariant disk[sector] == DiskInode(e)
        invariant forall j :: e.start <= j < e.start + i ==> disk[j] == Zeros(SECTOR_SIZE)
      {
        assert Data(e, e.start + i) && e.start + i in Own(sector, e);
        ghost var was := disk;
        ReserveWritten(disk, files, owner, reserved, bits, FREE_MAP_SECTOR, e.start + i, Zeros(SECTOR_SIZE));
        disk := disk[e.start + i := Zeros(SECTOR_SIZE)];
        KeptAgain(old(disk), was, disk, files, FREE_MAP_SECTOR);
      }
      ZeroContent(disk, e);
    }

    method InodeCreate(sector: nat, length: nat, calloc: bool, memory: bool) returns (success: bool)
      requires Valid() && sector in reserved && length < INT_LIMIT
      modifies `disk, `files, `owner, `reserved, freeMap.bits
      ensures Valid() && |disk| == old(|disk|) && OthersKept(old(disk), disk, old(files), FREE_MAP_SECTOR)
      ensures success <==>
        && calloc && length + SECTOR_SIZE <= INT_LIMIT && Room(old(freeMap.Contents()), Sectors(length))
        && (freeMapFile != null ==> Writable(memory))
      ensures success ==> sector !in old(files) && sector in files && files == old(files)[sector := files[sector]]
      ensures success ==> files[sector].length == length && FileContent(sector) == Zeros(length)
      ensures success ==> FirstGroup(old(freeMap.Contents()), 0, Sectors(length), false, files[sector].start)
      ensures success ==> reserved == old(reserved) - {sector}
      ensures !success ==> files == old(files) && owner == old(owner) && reserved == old(reserved)
      ensures !success ==> freeMap.Contents() == old(freeMap.Contents())
    {
      hide Laid, OthersKept, Transferred, OpenOkFor, FileContent, Image, Group, FirstGroup, Content, DiskInode, Sectors, BytesToSectors, Fits;
      success := false;
      if !calloc {
        NothingKept(disk, files, owner, reserved, freeMap.Contents(), FREE_MAP_SECTOR);
        return;
      }
      var sectors := BytesToSectors(length);
      SectorCountIsExact(length);
      ghost var bits := freeMap.Contents();
      LaidSizes(disk, files, owner, reserved, bits);
      NoRoomFor(bits, sectors);
      NoRoomFor(bits, Sectors(length));
      var start;
      success, start := FreeMapAllocate(sectors, memory);
      if success {
        var e := Extent(start, length);
        RoomFound(bits, sectors, start);
        NewExtent(bits, old(reserved), reserved, sector, e, sectors);
        LaidSizes(disk, files, owner, reserved, freeMap.Contents());
        ghost var was := disk;
        Clear(sector, e, sectors, freeMap.Contents());
        KeptAgain(old(disk), was, disk, files, FREE_MAP_SECTOR);
        FileMade(disk, files, owner, reserved, freeMap.Contents(), sector, e);
        OpenGrows(sector, e);
        files, owner, reserved := files[sector := e], Taken(owner, sector, e), reserved - Own(sector, e);
        FileContentIs(sector);
      }
    }

    lemma NoRoomFor(bits: seq<bool>, cnt: nat)
      ensures cnt > |bits| ==> !Room(bits, cnt)
    {
    }

    lemma NewExtent(bits: seq<bool>, before: set<nat>, after: set<nat>, sector: nat, e: Extent, sectors: nat)
      requires sectors == Sectors(e.length) && Group(bits, e.start, sectors, false) && e.length + SECTOR_SIZE <= INT_LIMIT
      requires after == before + Range(e.start, sectors) && Range(e.start, sectors) !! before && sector in before
      ensures Fits(e, |bits|) && Own(sector, e) <= after && !Data(e, sector) && after - Own(sector, e) == before - {sector}
    {
    }

    lemma OpenGrows(s: nat, e: Extent)
      requires OpenOk() && s !in files
      ensures OpenOkFor(files[s := e])
    {
      forall i: nat | i < |openInodes|
        ensures InodeOk(openInodes[i], files[s := e])
      {
        assert InodeOk(openInodes[i], files);
      }
    }

    /** Whether the file of this sector has an inode in memory. */
    ghost predicate IsOpen(sector: nat)
      reads `openInodes, openInodes
    {
      exists i: nat :: i < |openInodes| && openInodes[i].sector == sector
    }

    method InodeOpen(sector: nat, memory: bool) returns (inode: Inode?)
      requires Valid() && sector in files
      modifies `openInodes, openInodes`openCnt
      ensures Valid()
      ensures inode == null <==> !old(IsOpen(sector)) && !memory
      ensures inode != null ==> inode in openInodes && inode.sector == sector
      ensures old(IsOpen(sector)) ==> inode in old(openInodes) && inode.openCnt == old(inode.openCnt) + 1 && openInodes == old(openInodes)
      ensures inode != null && !old(IsOpen(sector)) ==> fresh(inode) && openInodes == [inode] + old(openInodes)
      ensures inode != null && !old(IsOpen(sector)) ==> inode.openCnt == 1 && inode.denyWriteCnt == 0 && !inode.removed
      ensures inode == null ==> openInodes == old(openInodes)
      ensures forall o :: o in old(openInodes) && o != inode ==> o.openCnt == old(o.openCnt)
    {
      hide Laid;
      for i := 0 to |openInodes|
        invariant forall j: nat :: j < i ==> openInodes[j].sector != sector
      {
        if openInodes[i].sector == sector {
          inode := openInodes[i];
          assert InodeOk(inode, files);
          inode.openCnt := inode.openCnt + 1;
          assert forall j: nat :: j < |openInodes| ==> old(InodeOk(openInodes[j], files));
          return;
        }
      }
      if !memory {
        return null;
      }
      OnDisk(sector);
      inode := new Inode(sector, ReadInode(disk[sector]));
      openInodes := [inode] + openInodes;
    }

    lemma OnDisk(sector: nat)
      requires Valid() && sector in files
      ensures sector < |disk| && |disk[sector]| == SECTOR_SIZE && ReadInode(disk[sector]) == files[sector]
    {
      assert FileOk(disk, files[sector], owner, sector);
      InodeBack(files[sector]);
    }

    method InodeReopen(inode: Inode?) returns (r: Inode?)
      requires Valid() && (inode != null ==> inode in openInodes)
      modifies if inode == null then {} else {inode}
      ensures Valid() && r == inode
      ensures inode != null ==> inode.openCnt == old(inode.openCnt) + 1 && inode.removed == old(inode.removed)
      ensures inode != null ==> inode.denyWriteCnt == old(inode.denyWriteCnt)
    {
      hide Laid;
      if inode != null {
        InodeIsFile(inode);
        inode.openCnt := inode.openCnt + 1;
        assert forall j: nat :: j < |openInodes| ==> old(InodeOk(openInodes[j], files));
      }
      r := inode;
    }

    /** The directories never name the free map's file. */
    method InodeRemove(inode: Inode)
      requires Valid() && inode in openInodes && inode != freeMapFile
      modifies inode`removed
      ensures Valid() && inode.removed
    {
      hide Laid;
      inode.removed := true;
      assert forall j: nat :: j < |openInodes| ==> old(InodeOk(openInodes[j], files));
    }

    /** At most once for each opener. */
    method InodeDenyWrite(inode: Inode)
      requires Valid() && inode in openInodes && inode.denyWriteCnt < inode.openCnt
      modifies inode`denyWriteCnt
      ensures Valid() && inode.denyWriteCnt == old(inode.denyWriteCnt) + 1
    {
      hide Laid;
      inode.denyWriteCnt := inode.denyWriteCnt + 1;
      assert forall j: nat :: j < |openInodes| ==> old(InodeOk(openInodes[j], files));
    }

    method InodeAllowWrite(inode: Inode)
      requires Valid() && inode in openInodes && inode.denyWriteCnt > 0
      modifies inode`denyWriteCnt
      ensures Valid() && inode.denyWriteCnt == old(inode.denyWriteCnt) - 1
    {
      hide Laid;
      InodeIsFile(inode);
      inode.denyWriteCnt := inode.denyWriteCnt - 1;
      assert forall j: nat :: j < |openInodes| ==> old(InodeOk(openInodes[j], files));
    }

    /** `list` is `was` without exactly the one entry for `inode`. */
    ghost predicate TakenOff(inode: Inode, was: seq<Inode>, list: seq<Inode>) {
      exists at: nat :: at < |was| && was[at] == inode && list == was[..at] + was[at + 1..]
    }

    /** list_remove on the list of open inodes. */
    method ListRemove(inode: Inode) returns (ghost at: nat)
      requires Valid() && inode in openInodes && inode != freeMapFile
      modifies `openInodes
      ensures Valid()
      ensures at < |old(openInodes)| && old(openInodes)[at] == inode && openInodes == old(openInodes)[..at] + old(openInodes)[at + 1..]
      ensures inode !in openInodes && forall o :: o in openInodes ==> o in old(openInodes) && o.sector != inode.sector
      ensures forall o :: o in old(openInodes) && o != inode ==> o in openInodes
    {
      hide Laid;
      var i := 0;
      while openInodes[i] != inode
        invariant 0 <= i < |openInodes| && inode !in openInodes[..i]
        decreases |openInodes| - i
      {
        i := i + 1;
        assert openInodes[..i] == openInodes[..i - 1] + [openInodes[i - 1]];
        assert openInodes[..|openInodes|] == openInodes;
      }
      at := i;
      ghost var was := openInodes;
      openInodes := openInodes[..i] + openInodes[i + 1..];
      OneTakenOff(was, openInodes, i);
    }

    /** Taking one inode off keeps the others right. */
    lemma OneTakenOff(was: seq<Inode>, list: seq<Inode>, at: nat)
      requires at < |was| && list == was[..at] + was[at + 1..] && list == openInodes && was[at] != freeMapFile
      requires forall i: nat :: i < |was| ==> InodeOk(was[i], files)
      requires forall i: nat, j: nat :: i < j < |was| ==> was[i].sector != was[j].sector
      requires freeMapFile != null ==> freeMapFile in was && freeMapFile.sector == FREE_MAP_SECTOR && !freeMapFile.removed
      ensures OpenOk() && was[at] !in list
      ensures forall o :: o in list ==> o in was && o.sector != was[at].sector
      ensures forall o :: o in was && o != was[at] ==> o in list
    {
      forall j: nat | j < |list|
        ensures InodeOk(list[j], files) && list[j].sector != was[at].sector && list[j] in was
      {
        assert list[j] == if j < at then was[j] else was[j + 1];
        assert InodeOk(was[if j < at then j else j + 1], files);
      }
      forall o | o in was && o != was[at]
        ensures o in list
      {
        var k :| 0 <= k < |was| && was[k] == o;
        assert o == list[if k < at then k else k - 1];
      }
    }

    /** The sectors of a file that is gone are free again. */
    method Discard(inode: Inode, memory1: bool, memory2: bool)
      requires Valid() && freeMapFile != null && inode !in openInodes
      requires inode.sector in files && inode.Place() == files[inode.sector] && inode.sector != FREE_MAP_SECTOR
      requires forall o :: o in openInodes ==> o.sector != inode.sector
      modifies `disk, `files, `owner, `reserved, freeMap.bits
      ensures Valid() && |disk| == old(|disk|)
      ensures files == old(files) - {inode.sector} && reserved == old(reserved)
      ensures OthersKept(old(disk), disk, files, FREE_MAP_SECTOR)
      ensures forall i: nat :: i < |disk| ==>
        (freeMap.Contents()[i] <==> old(freeMap.Contents())[i] && i !in Own(inode.sector, inode.Place()))
    {
      hide Laid, OthersKept, OpenOkFor, Image, Transferred, FileContent, Group, FirstGroup, Content, DiskInode, Sectors, Fits, BytesToSectors, Own, DataSet, Range;
      ghost var e, s, bits := inode.Place(), inode.sector, freeMap.Contents();
      LaidSizes(disk, files, owner, reserved, bits);
      FileGone(disk, files, owner, reserved, bits, s);
      GoneSectors(disk, files, owner, reserved, bits, s);
      OpenShrinks(s);
      files, owner, reserved := files - {s}, owner - Own(s, e), reserved + Own(s, e);
      FreeMapRelease(inode.sector, 1, memory1);
      ghost var mid := disk;
      FreeMapRelease(inode.start, BytesToSectors(inode.length), memory2);
      KeptAgain(old(disk), mid, disk, files, FREE_MAP_SECTOR);
    }

    /** What is given back: the inode's sector and the data, apart from each other and from the reserve. */
    lemma GoneSectors(disk: seq<Bytes>, files: map<nat, Extent>, owner: map<nat, nat>, reserved: set<nat>, bits: seq<bool>, s: nat)
      requires Laid(disk, files, owner, reserved, bits) && s in files
      ensures var e := files[s];
              && s < |disk| && e.length < INT_LIMIT && e.start + BytesToSectors(e.length) <= |disk|
              && Own(s, e) == Range(s, 1) + Range(e.start, BytesToSectors(e.length))
              && Range(s, 1) !! Range(e.start, BytesToSectors(e.length)) && Own(s, e) !! reserved
              && Range(s, 1) == {s}
    {
      hide DiskInode;
      var e := files[s];
      assert FileOk(disk, e, owner, s);
      SectorCountIsExact(e.length);
      assert forall i: nat :: i in Own(s, e) ==> i in owner;
    }

    lemma OpenShrinks(s: nat)
      requires OpenOk() && forall o :: o in openInodes ==> o.sector != s
      ensures OpenOkFor(files - {s})
    {
      forall i: nat | i < |openInodes|
        ensures InodeOk(openInodes[i], files - {s})
      {
        assert InodeOk(openInodes[i], files);
      }
    }

    method InodeClose(inode: Inode?, memory1: bool, memory2: bool)
      requires Valid()
      requires inode != null ==> inode in openInodes && inode.denyWriteCnt < inode.openCnt
      requires inode != null && inode == freeMapFile ==> inode.openCnt > 1
      requires inode != null && inode.removed ==> freeMapFile != null
      modifies `disk, `files, `owner, `reserved, `openInodes, freeMap.bits
      modifies if inode == null then {} else {inode}
      ensures Valid() && |disk| == old(|disk|) && OthersKept(old(disk), disk, files, FREE_MAP_SECTOR)
      ensures inode == null || old(inode.openCnt) > 1 || !old(inode.removed) ==>
        files == old(files) && disk == old(disk) && freeMap.Contents() == old(freeMap.Contents())
      ensures inode != null ==>
        && inode.openCnt == old(inode.openCnt) - 1 && inode.removed == old(inode.removed)
        && inode.denyWriteCnt == old(inode.denyWriteCnt) && (inode in openInodes <==> inode.openCnt > 0)
      ensures if inode == null || old(inode.openCnt) > 1 then openInodes == old(openInodes)
              else TakenOff(inode, old(openInodes), openInodes)
      ensures inode != null && old(inode.openCnt) == 1 && old(inode.removed) ==> files == old(files) - {inode.sector}
      ensures inode != null && old(inode.openCnt) == 1 && old(inode.removed) ==> forall i: nat :: i < |disk| ==>
        (freeMap.Contents()[i] <==> old(freeMap.Contents())[i] && i !in Own(inode.sector, inode.Place()))
      ensures reserved == old(reserved)
    {
      hide Laid, OthersKept, Image, Transferred, FileContent, Content, DiskInode, Sectors, Fits;
      NothingKept(disk, files, owner, reserved, freeMap.Contents(), FREE_MAP_SECTOR);
      if inode == null {
        return;
      }
      InodeIsFile(inode);
      if inode.openCnt == 1 {
        var at := ListRemove(inode);
        inode.openCnt := inode.openCnt - 1;
        assert OpenOk();
        if inode.removed {
          Discard(inode, memory1, memory2);
        }
      } else {
        inode.openCnt := inode.openCnt - 1;
        assert forall j: nat :: j < |openInodes| ==> old(InodeOk(openInodes[j], files));
      }
    }

    // ------------------------------------------------- runs of operations

    /** The sectors that have been removed are those whose open inode says so. */
    ghost predicate Tracks(gone: set<nat>)
      reads `openInodes, openInodes
    {
      forall o :: o in openInodes ==> (o.removed <==> o.sector in gone)
    }

    /** The inode in memory of a file, if there is one. */
    method Opened(sector: nat) returns (inode: Inode?)
      requires Valid()
      ensures inode == null <==> !IsOpen(sector)
      ensures inode != null ==> inode in openInodes && inode.sector == sector
    {
      hide Valid;
      for i := 0 to |openInodes|
        invariant forall j: nat :: j < i ==> openInodes[j].sector != sector
      {
        if openInodes[i].sector == sector {
          return openInodes[i];
        }
      }
      return null;
    }

    /** What an operation may do to files and open inodes: a file that had not been removed and
        closed by its last opener is there, unless now it has been. */
    twostate predicate Carried(op: FileOp, gone: set<nat>, gone': set<nat>)
      reads this, freeMap.bits, openInodes
    {
      && Valid() && Tracks(gone') && freeMapFile == old(freeMapFile)
      && (gone' == gone || (op.Remove? && gone' == gone + {op.sector}))
      && KeptFiles(old(disk), disk, old(files), files) && reserved == old(reserved)
      && (forall s: nat :: s in old(files) && (s !in gone || old(IsOpen(s))) ==> (s in files <==> s !in gone' || IsOpen(s)))
      && (forall o :: o in openInodes ==> o in old(openInodes) || fresh(o))
    }

    /** Files whose inode stays in the list stay open. */
    twostate lemma StillOpen(but: Inode?)
      requires forall o :: o in old(openInodes) && o != but ==> o in openInodes
      requires forall o :: o in openInodes ==> o in old(openInodes) || fresh(o)
      ensures forall s: nat :: old(IsOpen(s)) && (but != null ==> s != but.sector) ==> IsOpen(s)
    {
      forall s: nat | old(IsOpen(s)) && (but != null ==> s != but.sector)
        ensures IsOpen(s)
      {
        var i: nat :| i < |old(openInodes)| && old(openInodes)[i].sector == s;
        var o := old(openInodes)[i];
        assert o in openInodes;
      }
    }

    lemma TakenOffMeans(inode: Inode, was: seq<Inode>, list: seq<Inode>)
      requires TakenOff(inode, was, list)
      ensures forall o :: o in was && o != inode ==> o in list
      ensures forall o :: o in list ==> o in was
    {
      var at: nat :| at < |was| && was[at] == inode && list == was[..at] + was[at + 1..];
      forall o | o in was && o != inode
        ensures o in list
      {
        var k :| 0 <= k < |was| && was[k] == o;
        assert o == list[if k < at then k else k - 1];
      }
    }

    /** With its inode off the list a file is not open. */
    lemma NotOpen(sector: nat)
      requires forall o :: o in openInodes ==> o.sector != sector
      ensures !IsOpen(sector)
    {
    }

    lemma OneOf(inode: Inode, was: seq<Inode>, list: seq<Inode>)
      requires TakenOff(inode, was, list)
      requires forall i: nat, j: nat :: i < j < |was| ==> was[i].sector != was[j].sector
      ensures forall o :: o in list ==> o.sector != inode.sector
    {
      var at: nat :| at < |was| && was[at] == inode && list == was[..at] + was[at + 1..];
      forall o | o in list
        ensures o.sector != inode.sector
      {
        var k :| 0 <= k < |list| && list[k] == o;
        assert o == was[if k < at then k else k + 1];
      }
    }

    lemma SectorsDiffer()
      requires Valid()
      ensures forall i: nat, j: nat :: i < j < |openInodes| ==> openInodes[i].sector != openInodes[j].sector
    {
      hide Laid;
    }

    method PerformOpen(sector: nat, memory: bool, ghost gone: set<nat>)
      requires Valid() && sector in files && Tracks(gone) && (sector in gone ==> IsOpen(sector))
      modifies this, freeMap.bits, openInodes
      ensures Carried(Open(sector, memory), gone, gone) && files == old(files)
    {
      hide Laid, OthersKept, OpenOkFor;
      NothingKept(disk, files, owner, reserved, freeMap.Contents(), FREE_MAP_SECTOR);
      var r := InodeOpen(sector, memory);
      StillOpen(null);
    }

    method PerformReopen(sector: nat, inode: Inode?, ghost gone: set<nat>)
      requires Valid() && Tracks(gone) && (inode != null ==> inode in openInodes)
      modifies this, freeMap.bits, openInodes
      ensures Carried(Reopen(sector), gone, gone) && files == old(files)
    {
      hide Laid, OthersKept, OpenOkFor;
      NothingKept(disk, files, owner, reserved, freeMap.Contents(), FREE_MAP_SECTOR);
      var r := InodeReopen(inode);
    }

    method PerformRemove(op: FileOp, inode: Inode, ghost gone: set<nat>) returns (ghost gone': set<nat>)
      requires Valid() && Tracks(gone)
      requires op.Remove? && inode in openInodes && inode.sector == op.sector && inode != freeMapFile
      modifies this, freeMap.bits, openInodes
      ensures Carried(op, gone, gone')
      ensures gone' == gone + {op.sector} && files == old(files)
    {
      hide Laid, OthersKept, OpenOkFor, IsOpen;
      NothingKept(disk, files, owner, reserved, freeMap.Contents(), FREE_MAP_SECTOR);
      SectorsTell(inode);
      InodeRemove(inode);
      TracksMore(inode, gone);
      gone' := gone + {inode.sector};
      StillOpen(null);
      OpenHere(inode);
    }

    lemma TracksMore(inode: Inode, gone: set<nat>)
      requires inode.removed && forall o :: o in openInodes && o != inode ==> (o.removed <==> o.sector in gone)
      requires forall o :: o in openInodes && o.sector == inode.sector ==> o == inode
      ensures Tracks(gone + {inode.sector})
    {
    }

    lemma OpenHere(inode: Inode)
      requires inode in openInodes
      ensures IsOpen(inode.sector)
    {
    }

    lemma SectorsTell(inode: Inode)
      requires Valid() && inode in openInodes
      ensures forall o :: o in openInodes && o.sector == inode.sector ==> o == inode
    {
      hide Laid;
    }

    method PerformClose(sector: nat, inode: Inode, memory1: bool, memory2: bool, ghost gone: set<nat>)
      requires Valid() && Tracks(gone) && inode in openInodes && inode.sector == sector && inode.denyWriteCnt < inode.openCnt
      requires (inode == freeMapFile ==> inode.openCnt > 1) && (inode.removed ==> freeMapFile != null)
      modifies this, freeMap.bits, openInodes
      ensures Carried(Close(sector, memory1, memory2), gone, gone)
      ensures files == if old(inode.openCnt) == 1 && old(inode.removed) then old(files) - {sector} else old(files)
    {
      hide Laid, OthersKept, OpenOkFor, IsOpen, TakenOff;
      ghost var was := openInodes;
      SectorsDiffer();
      InodeClose(inode, memory1, memory2);
      if inode.openCnt == 0 {
        TakenOffMeans(inode, was, openInodes);
        OneOf(inode, was, openInodes);
        StillOpen(inode);
        NotOpen(sector);
      } else {
        StillOpen(null);
      }
    }

    /** Carries out one operation where its caller may ask for it; `names` are the sectors of the files. */
    method Perform(op: FileOp, names: set<nat>, ghost gone: set<nat>) returns (names': set<nat>, ghost gone': set<nat>)
      requires Valid() && names == files.Keys && Tracks(gone)
      requires forall s: nat :: s in files && s in gone ==> IsOpen(s)
      modifies this, freeMap.bits, openInodes
      ensures Carried(op, gone, gone') && names' == files.Keys
    {
      hide Laid, OthersKept, OpenOkFor;
      NothingKept(disk, files, owner, reserved, freeMap.Contents(), FREE_MAP_SECTOR);
      names', gone' := names, gone;
      var inode := Opened(op.sector);
      match op {
        case Open(sector, memory) =>
          if sector in names {
            PerformOpen(sector, memory, gone);
          }
        case Reopen(sector) =>
          PerformReopen(sector, inode, gone);
        case Remove(sector) =>
          if inode != null && inode != freeMapFile {
            gone' := PerformRemove(op, inode, gone);
          }
        case Close(sector, memory1, memory2) =>
          if inode != null && inode.denyWriteCnt < inode.openCnt
            && (inode == freeMapFile ==> inode.openCnt > 1) && (inode.removed ==> freeMapFile != null) {
            if inode.openCnt == 1 && inode.removed {
              names' := names - {sector};
            }
            PerformClose(sector, inode, memory1, memory2, gone);
          }
      }
    }

    /** The open inodes of these sectors are marked as removed. */
    ghost predicate IsRemoved(sector: nat)
      reads `openInodes, openInodes
    {
      exists i: nat :: i < |openInodes| && openInodes[i].sector == sector && openInodes[i].removed
    }

    lemma RemovedAre(gone: set<nat>)
      requires Valid() && forall s: nat :: s in gone <==> s in files && IsRemoved(s)
      ensures Tracks(gone) && forall s: nat :: s in gone ==> IsOpen(s)
    {
      hide Laid;
      forall o | o in openInodes
        ensures o.removed <==> o.sector in gone
      {
        InodeIsFile(o);
        SectorsTell(o);
        var k :| 0 <= k < |openInodes| && openInodes[k] == o;
        assert openInodes[k].sector == o.sector;
      }
    }

    lemma OpenAreFiles()
      requires Valid()
      ensures forall s: nat :: IsOpen(s) ==> s in files
    {
      hide Laid;
    }

    /** Over any run of opens, reopens, removes and closes, in any order: a file is gone at the end
        exactly if it had been marked as removed, by the run or before it, and nobody has it open.
        Every other file is in its place with the bytes it had, but for those of the free map. */
    method Run(ops: seq<FileOp>, names: set<nat>) returns (names': set<nat>, ghost gone: set<nat>)
      requires Valid() && names == files.Keys
      modifies this, freeMap.bits, openInodes
      ensures Valid() && names' == files.Keys
      ensures forall s: nat :: s in gone ==> old(IsRemoved(s)) || exists i :: 0 <= i < |ops| && ops[i].Remove? && ops[i].sector == s
      ensures forall s: nat :: s in old(files) ==> (s in files <==> s !in gone || IsOpen(s))
      ensures KeptFiles(old(disk), disk, old(files), files) && reserved == old(reserved)
    {
      hide Laid, OthersKept, OpenOkFor, Tracks, IsRemoved, Valid;
      gone := set s: nat | s in files && IsRemoved(s);
      RemovedAre(gone);
      names' := names;
      KeptAtStart();
      for k := 0 to |ops|
        invariant Valid() && names' == files.Keys && Tracks(gone)
        invariant forall s: nat :: s in gone ==> old(IsRemoved(s)) || exists i :: 0 <= i < k && ops[i].Remove? && ops[i].sector == s
        invariant forall s: nat :: s in old(files) ==> (s in files <==> s !in gone || IsOpen(s))
        invariant KeptFiles(old(disk), disk, old(files), files) && reserved == old(reserved)
        invariant forall o :: o in openInodes ==> o in old(openInodes) || fresh(o)
        invariant forall i :: 0 <= i < |openInodes| ==> openInodes[i] in old(openInodes) || fresh(openInodes[i])
      {
        OpenAreFiles();
        ghost var was, fs := disk, files;
        names', gone := Perform(ops[k], names', gone);
        KeptFurther(old(disk), was, disk, old(files), fs, files);
        OpenAreFiles();
      }
    }

    lemma KeptAtStart()
      requires Valid()
      ensures KeptFiles(disk, disk, files, files)
    {
      hide FilesOk, Marks, OthersKept;
      NothingKept(disk, files, owner, reserved, freeMap.Contents(), FREE_MAP_SECTOR);
    }

    lemma KeptFurther(d0: seq<Bytes>, d1: seq<Bytes>, d2: seq<Bytes>, f0: map<nat, Extent>, f1: map<nat, Extent>, f2: map<nat, Extent>)
      requires KeptFiles(d0, d1, f0, f1) && KeptFiles(d1, d2, f1, f2)
      ensures KeptFiles(d0, d2, f0, f2)
    {
      hide Content, DiskOk, Fits;
      assert OthersKept(d0, d1, f2, FREE_MAP_SECTOR);
      KeptAgain(d0, d1, d2, f2, FREE_MAP_SECTOR);
    }

    // ------------------------------------------- the free map's own file

    /** free_map_create, with file_open. Where the kernel would stop, the result is false. */
    method FreeMapCreate(calloc: bool, memory: bool) returns (ok: bool)
      requires Valid() && freeMapFile == null && openInodes == [] && FREE_MAP_SECTOR in reserved
      modifies `disk, `files, `owner, `reserved, `freeMapFile, `openInodes, freeMap.bits
      ensures ok ==> Valid() && Saved() && freeMapFile != null && fresh(freeMapFile)
      ensures ok ==> files.Keys == old(files.Keys) + {FREE_MAP_SECTOR} && reserved == old(reserved) - {FREE_MAP_SECTOR}
      ensures ok <==> calloc && memory && Room(old(freeMap.Contents()), Sectors(8 * freeMap.bits.Length))
    {
      hide Laid, OthersKept, FileContent, Image, Transferred, Group, FirstGroup, Content, DiskInode;
      MapFileSize();
      ok := InodeCreate(FREE_MAP_SECTOR, 8 * freeMap.bits.Length, calloc, memory);
      if ok {
        var inode := InodeOpen(FREE_MAP_SECTOR, memory);
        if inode == null {
          return false;
        }
        freeMapFile := inode;
        assert InodeOk(inode, files);
        TransferIsExact(8 * freeMap.bits.Length, 0, inode.length, memory);
        ok := BitmapWrite(memory);
      }
    }

    lemma MapFileSize()
      requires Valid()
      ensures 8 * freeMap.bits.Length + SECTOR_SIZE <= INT_LIMIT
    {
    }

    /** free_map_open on a disk that was left by a system whose free map was saved. */
    method FreeMapOpen(memory: bool, ghost files0: map<nat, Extent>, ghost owner0: map<nat, nat>, ghost reserved0: set<nat>,
                       ghost words: seq<bv64>)
      returns (ok: bool)
      requires freeMap.Valid() && freeMapFile == null && openInodes == [] && freeMap.bitCnt == |disk|
      requires DiskOk(disk) && |words| == ElemCnt(|disk|) && Laid(disk, files0, owner0, reserved0, BitsOf(words, |disk|))
      requires FREE_MAP_SECTOR in files0 && Fits(files0[FREE_MAP_SECTOR], |disk|)
      requires files0[FREE_MAP_SECTOR].length >= 8 * |words|
      requires Content(disk, files0[FREE_MAP_SECTOR])[..8 * |words|] == Image(words)
      modifies `files, `owner, `reserved, `freeMapFile, `openInodes, freeMap.bits
      ensures ok ==> Valid() && freeMapFile != null && files == files0 && freeMap.Contents() == BitsOf(words, |disk|)
      ensures memory ==> ok
    {
      hide Laid, OthersKept, Image, Transferred, Content, DiskInode, Sectors, Fits, Holds, FromImage, LastMasked;
      if !memory {
        return false;
      }
      FirstInode(disk, files0, owner0, reserved0, BitsOf(words, |disk|));
      var inode := new Inode(FREE_MAP_SECTOR, ReadInode(disk[FREE_MAP_SECTOR]));
      openInodes, freeMapFile := [inode] + openInodes, inode;
      var size := 8 * freeMap.bits.Length;
      TransferIsExact(size, 0, inode.length, memory);
      var image := ReadAt(inode, size, 0, memory);
      if |image| != size {
        return false;
      }
      ImageLength(words);
      assert image == Image(words);
      freeMap.Load(image);
      BackAgain(words, |disk|);
      HeldAreThose(freeMap.bits[..], BitsOf(words, |disk|));
      files, owner, reserved := files0, owner0, reserved0;
      ok := true;
    }

    lemma FirstInode(disk: seq<Bytes>, files: map<nat, Extent>, owner: map<nat, nat>, reserved: set<nat>, bits: seq<bool>)
      requires Laid(disk, files, owner, reserved, bits) && FREE_MAP_SECTOR in files
      ensures |disk| > 0 && |disk[0]| == SECTOR_SIZE && ReadInode(disk[0]) == files[FREE_MAP_SECTOR]
    {
      assert FileOk(disk, files[FREE_MAP_SECTOR], owner, FREE_MAP_SECTOR);
      InodeBack(files[FREE_MAP_SECTOR]);
    }

    lemma BackAgain(words: seq<bv64>, n: nat)
      requires |words| == ElemCnt(n)
      ensures Holds(LastMasked(FromImage(Image(words), |words|), n), BitsOf(words, n))
    {
      StoredAndLoaded(words, BitsOf(words, n));
    }
  }
}
