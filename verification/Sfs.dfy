/** The operations of assignment3/src/sfs.c on the disk's bytes. */
module Sfs {
  import opened Bytes
  import opened Bits
  import opened SfsLayout
  import opened Files
  import opened Writes
  import opened Beyond
  import opened FileRuns

  const MAP_BASE: nat := 4
  const INODE_START: nat := 3

  /** The file system that the bytes of the disk describe. */
  ghost function Abs(disk: seq<Block>): (fs: FS)
    requires |disk| == DISK
    ensures Shape(fs)
  {
    FS(Decode(disk[0][..4]), Bitmap(disk[0], MAP_BASE, INODES), Bitmap(disk[1], 0, BLOCKS),
       seq(INODES, n requires 0 <= n < INODES => InodeIn(disk[INODE_START + n / PER_BLOCK], n % PER_BLOCK)),
       disk[D_BLOCK_START..])
  }

  /** Where everything is on the disk, in numbers: inode mark `n` is a bit from byte 4 of block 0 on, block
      mark `n` a bit from byte 0 of block 1 on, inode `n` the `n % 3`-th 4368 bytes of block `3 + n / 3`, data
      block `d` block `50 + d`. */
  lemma AbsIs(disk: seq<Block>, n: nat, d: nat)
    requires |disk| == DISK && n < 128 && d < 4096
    ensures Abs(disk).ifree[n] <==> Bit(disk[0][4 + n / 8], n % 8) == 1
    ensures Abs(disk).bfree[d] <==> Bit(disk[1][d / 8], d % 8) == 1
    ensures Abs(disk).inodes[n] == DecodeInode(disk[3 + n / 3][n % 3 * 4368..n % 3 * 4368 + 4368])
    ensures Abs(disk).data[d] == disk[50 + d] && |disk[50 + d]| == 16384
    ensures Abs(disk).magic == Decode(disk[0][..4])
  {
    hide Bit, DecodeInode, Decode;
  }

  /** Mark `n` set; the bits behind the bitmap are no marks. */
  function Marked(marks: seq<bool>, n: nat, on: bool): seq<bool> {
    if n < |marks| then marks[n := on] else marks
  }

  lemma AbsInodeMark(disk: seq<Block>, n: nat, on: bool)
    requires |disk| == DISK && n < INODES
    ensures Abs(disk[0 := SetMark(disk[0], MAP_BASE, n, on)]) == Abs(disk).(ifree := Abs(disk).ifree[n := on])
  {
    hide Bitmap, InodeIn, WithBit;
    SetMarkIs(disk[0], MAP_BASE, INODES, n, on);
    var r := disk[0 := SetMark(disk[0], MAP_BASE, n, on)];
    assert r[0][..4] == disk[0][..4];
    assert Abs(r).inodes == Abs(disk).inodes && Abs(r).data == Abs(disk).data;
  }

  lemma AbsBlockMark(disk: seq<Block>, n: nat, on: bool)
    requires |disk| == DISK && n < 8 * BLOCK_SIZE
    ensures Abs(disk[1 := SetMark(disk[1], 0, n, on)]) == Abs(disk).(bfree := Marked(Abs(disk).bfree, n, on))
  {
    if n < BLOCKS { SetMarkIs(disk[1], 0, BLOCKS, n, on); } else { SetMarkPast(disk[1], 0, BLOCKS, n, on); }
    hide SetMark, Bitmap, InodeIn;
    var r := disk[1 := SetMark(disk[1], 0, n, on)];
    assert Abs(r).inodes == Abs(disk).inodes && Abs(r).data == Abs(disk).data;
  }

  /** Inode blocks 3 to 45 hold three inodes each and lie clear of both bitmaps and all data. */
  lemma AbsInode(disk: seq<Block>, n: nat, nd: Inode)
    requires |disk| == DISK && n < INODES && InodeOk(nd)
    ensures var b := INODE_START + n / PER_BLOCK;
      Abs(disk[b := PutInode(disk[b], n % PER_BLOCK, nd)]) == Abs(disk).(inodes := Abs(disk).inodes[n := nd])
  {
    hide PutInode, Bitmap, InodeIn;
    var b := INODE_START + n / PER_BLOCK;
    var r := disk[b := PutInode(disk[b], n % PER_BLOCK, nd)];
    forall k | 0 <= k < INODES ensures Abs(r).inodes[k] == if k == n then nd else Abs(disk).inodes[k] {
      if k / PER_BLOCK == n / PER_BLOCK { PutInodeIs(disk[b], n % PER_BLOCK, nd, k % PER_BLOCK); }
    }
    assert Abs(r).inodes == Abs(disk).inodes[n := nd];
    assert Abs(r).data == Abs(disk).data;
  }

  lemma AbsData(disk: seq<Block>, d: nat, b: Block)
    requires |disk| == DISK && d < BLOCKS
    ensures Abs(disk[D_BLOCK_START + d := b]) == Abs(disk).(data := Abs(disk).data[d := b])
  {
  }

  datatype CreateResult = NewFile(id: nat) | NoInode | NoBlock(id: nat)

  /** `Stray` marks a run in which the code follows a slot that was never set, or goes past the last
      slot; what it reads or writes there is not modelled. */
  datatype ReadResult = Got(bytes: seq<byte>) | BadFile | PastEnd | Stray

  datatype RemoveResult = Removed | NotFound | Outside

  datatype WriteResult = Wrote(n: nat) | NoFile | NoSpace | Astray

  /** How growing a file by one byte ends. */
  datatype Growth = Grown | Full | OutOfBlocks | OffTheEnd

  /** The file system with the record of inode `id` as it is in memory. */
  ghost function Pending(fs: FS, id: nat, file: Inode): (v: FS)
    requires Shape(fs) && id < INODES && InodeOk(file)
    ensures Shape(v)
  {
    fs.(inodes := fs.inodes[id := file])
  }

  /** `v` is the file system as it will be once the buffered block and inode are on the disk. */
  ghost predicate Staged(fs: FS, v: FS, id: nat, file: Inode, blk: nat, buf: Block)
    ensures Staged(fs, v, id, file, blk, buf) ==> Shape(v) && id < INODES && v.inodes[id] == file && v.bfree == fs.bfree
  {
    && Shape(fs) && id < INODES && InodeOk(file) && HasSlot(file, blk)
    && v == Pending(fs, id, file).(data := fs.data[file.data[blk] := buf])
  }

  /** A block that was just loaded. */
  lemma StageLoad(fs: FS, id: nat, file: Inode, blk: nat)
    requires Shape(fs) && id < INODES && InodeOk(file) && HasSlot(file, blk)
    ensures Staged(fs, Pending(fs, id, file), id, file, blk, fs.data[file.data[blk]])
  {
  }

  lemma StagePoke(fs: FS, v: FS, id: nat, file: Inode, blk: nat, buf: Block, chr: nat, pos: nat, b: byte)
    requires Staged(fs, v, id, file, blk, buf) && At(blk, chr, pos)
    ensures HasSlot(v.inodes[id], pos / BLOCK_SIZE) && Staged(fs, Poke(v, id, pos, b), id, file, blk, buf[chr := b])
  {
  }

  lemma StageResize(fs: FS, v: FS, id: nat, file: Inode, blk: nat, buf: Block, size: nat)
    requires Staged(fs, v, id, file, blk, buf) && size <= MAX_FILE
    ensures Staged(fs, Resize(v, id, size), id, file.(size := size), blk, buf)
  {
  }

  lemma StageAttach(fs: FS, v: FS, id: nat, file: Inode, blk: nat, buf: Block, k: nat)
    requires Staged(fs, v, id, file, blk, buf) && blk + 1 < SLOTS && k < BLOCKS
    ensures Staged(fs.(bfree := fs.bfree[k := false]), Attach(v, id, blk + 1, k), id,
                   file.(data := file.data[blk + 1 := k]), blk, buf)
  {
  }

  /** The buffer is flushed and the next block loaded: the staged state stays the same. */
  lemma StageNext(fs: FS, v: FS, id: nat, file: Inode, blk: nat, buf: Block)
    requires Staged(fs, v, id, file, blk, buf) && HasSlot(file, blk + 1)
    ensures var fs' := fs.(data := fs.data[file.data[blk] := buf]);
      Staged(fs', v, id, file, blk + 1, fs'.data[file.data[blk + 1]])
  {
  }

  /** What growing a file by one byte does to its record and to the disk, block `k` being the lowest
      free one. */
  predicate GrownTo(fs: FS, fs': FS, file: Inode, file': Inode, blk: nat, k: nat, g: Growth)
    requires |fs.bfree| == BLOCKS && |file.data| == SLOTS
  {
    var longer := file.(size := file.size + 1);
    if (file.size + 1) % BLOCK_SIZE != 0 then g == Grown && file' == longer && fs' == fs
    else if file.size + 1 == MAX_FILE then g == Full && file' == longer && fs' == fs
    else if k >= BLOCKS then g == OutOfBlocks && fs' == fs
    else if blk + 1 >= SLOTS then g == OffTheEnd && fs' == fs
    else && g == Grown && file' == longer.(data := file.data[blk + 1 := k])
         && fs' == fs.(bfree := fs.bfree[k := false])
  }

  /** The byte is buffered and the file grown as needed: what a round comes to before the cursor
      moves on. */
  lemma StageRound(fs: FS, fs': FS, v: FS, id: nat, file: Inode, file': Inode, blk: nat, chr: nat, buf: Block,
                   pos: nat, b: byte, n: nat, g: Growth)
    requires Staged(fs, v, id, file, blk, buf) && At(blk, chr, pos) && 0 <= file.size <= MAX_FILE
    requires if pos < file.size then g == Grown && file' == file && fs' == fs
             else GrownTo(fs, fs', file, file', blk, LowestFree(fs.bfree, 0), g)
    ensures Ready(v, id, pos)
    ensures var r, buf' := Round(v, id, pos, b, n), buf[chr := b];
      match g
      case Grown =>
        && (r.Going? || r.Lost?) && (r.Lost? <==> (pos + 1) % BLOCK_SIZE == 0 && !HasSlot(file', blk + 1))
        && InodeOk(file') && HasSlot(file', blk) && 0 <= file'.size <= MAX_FILE
        && exists u :: Staged(fs', u, id, file', blk, buf') && (r.Going? ==> r.fs == u)
      case Full => r.Capped? && r.n == n && Staged(fs', r.fs, id, file', blk, buf')
      case OutOfBlocks => r.NoRoom? && fs' == fs && LowestFree(fs.bfree, 0) == BLOCKS
      case OffTheEnd => r.Lost?
  {
    hide LowestFree, Staged, Shape;
    AtIs(blk, chr, pos);
    StagePoke(fs, v, id, file, blk, buf, chr, pos, b);
    StagedOk(fs, v, id, file, blk, buf);
    var k, v1, buf1 := LowestFree(fs.bfree, 0), Poke(v, id, pos, b), buf[chr := b];
    if pos < file.size {
      assert Staged(fs, v1, id, file, blk, buf1);
    } else {
      var v2 := Resize(v1, id, file.size + 1);
      StageResize(fs, v1, id, file, blk, buf1, file.size + 1);
      if (file.size + 1) % BLOCK_SIZE == 0 && file.size + 1 < MAX_FILE && k < BLOCKS && blk + 1 < SLOTS {
        StageAttach(fs, v2, id, file.(size := file.size + 1), blk, buf1, k);
        StagedOk(fs', Attach(v2, id, blk + 1, k), id, file', blk, buf1);
      } else {
        StagedOk(fs, v2, id, file.(size := file.size + 1), blk, buf1);
      }
    }
  }

  lemma StagedOk(fs: FS, v: FS, id: nat, file: Inode, blk: nat, buf: Block)
    requires Staged(fs, v, id, file, blk, buf)
    ensures Shape(fs) && InodeOk(file) && HasSlot(file, blk) && blk < SLOTS
  {
  }

  /** If the write is given up, the disk still describes a sound file system and the other files. */
  lemma Unsaved(fs0: FS, fs: FS, v: FS, id: nat, off: nat, bs: seq<byte>, file: Inode, blk: nat, buf: Block)
    requires Inv(fs0) && IsFile(fs0, id) && off <= fs0.inodes[id].size && Written(fs0, v, id, off, bs)
    requires Staged(fs, v, id, file, blk, buf) && fs.inodes == fs0.inodes && fs.ifree == fs0.ifree && Owns(v, id, blk)
    ensures Inv(fs) && forall o: nat :: IsFile(fs0, o) && o != id ==> Flat(fs, o) == Flat(fs0, o)
  {
    UnsavedInv(fs0, fs);
    forall o: nat | IsFile(fs0, o) && o != id ensures Flat(fs, o) == Flat(fs0, o) {
      assert FileOk(fs0, o) && FileOk(fs, o) && FileOk(v, o) && FileOk(v, id);
      forall i: nat | i < |Flat(fs0, o)| ensures Flat(fs, o)[i] == Flat(v, o)[i] {
        Holds(fs0.inodes[o].size, i);
        Files.Apart(v, o, i / BLOCK_SIZE, id, blk);
      }
    }
  }

  lemma UnsavedInv(fs0: FS, fs: FS)
    requires Inv(fs0) && Shape(fs) && fs.inodes == fs0.inodes && fs.ifree == fs0.ifree
    requires forall n :: 0 <= n < BLOCKS && fs.bfree[n] ==> fs0.bfree[n]
    ensures Inv(fs)
  {
    assert forall o: nat, j: nat :: Owns(fs, o, j) <==> Owns(fs0, o, j);
    forall o: nat | IsFile(fs, o) ensures FileOk(fs, o) { assert FileOk(fs0, o); }
  }

  /** Where the cursor is: byte `pos` of a file is in slot `blk` at offset `chr`. */
  predicate At(blk: nat, chr: nat, pos: nat) {
    blk * BLOCK_SIZE + chr == pos && chr < BLOCK_SIZE
  }

  lemma AtIs(blk: nat, chr: nat, pos: nat)
    requires At(blk, chr, pos)
    ensures pos / BLOCK_SIZE == blk && pos % BLOCK_SIZE == chr
  {
  }

  /** The file system once the first `k` of the slots `data` are marked free. */
  ghost function Cleared(fs: FS, data: seq<int>, k: nat): FS
    requires Shape(fs) && k <= |data|
  {
    fs.(bfree := seq(BLOCKS, n requires 0 <= n < BLOCKS => fs.bfree[n] || exists i :: 0 <= i < k && data[i] == n))
  }

  const MAGIC: nat := 6942069

  method FillOnes(b: Block, base: nat, count: nat) returns (r: Block)
    requires base + count < BLOCK_SIZE
    ensures Bitmap(r, base, 8 * count) == seq(8 * count, _ => true) && r[..base] == b[..base]
  {
    r := b;
    for i := 0 to count
      invariant r[..base] == b[..base]
      invariant forall k :: base <= k < base + i ==> r[k] == 0xFF
    {
      r := r[base + i := 0xFF];
    }
    forall n | 0 <= n < 8 * count ensures Bit(r[base + n / 8], n % 8) == 1 { OnesBits(n % 8); }
  }

  lemma AbsMagic(disk: seq<Block>)
    requires |disk| == DISK
    ensures Abs(disk).magic == Decode(disk[0][..4])
  {
  }

  lemma MagicStored(b: Block)
    ensures Decode(Splice(b, 0, Encode(MAGIC, 4))[..4]) == MAGIC
  {
    Pow256Small();
    DecodeEncode(MAGIC, 4);
    assert Splice(b, 0, Encode(MAGIC, 4))[..4] == Encode(MAGIC, 4);
  }

  lemma OnesBits(j: nat)
    requires j < 8
    ensures Bit(0xFF, j) == 1
  {
    Pow2s();
    ZeroBits(j);
    ComplementBits(0, 8, j);
  }

  lemma AbsFresh(before: seq<Block>, disk: seq<Block>)
    requires |before| == |disk| == DISK && before[2..] == disk[2..]
    requires Bitmap(disk[0], MAP_BASE, INODES) == seq(INODES, _ => true)
      && Bitmap(disk[1], 0, BLOCKS) == seq(BLOCKS, _ => true)
    ensures Abs(disk).ifree == seq(INODES, _ => true) && Abs(disk).bfree == seq(BLOCKS, _ => true)
    ensures Abs(disk).data == Abs(before).data && Abs(disk).magic == Decode(disk[0][..4])
  {
  }

  lemma RootPath(path: seq<byte>)
    requires |path| >= 2 && path[0] == 0x2F && path[1] == 0
    ensures CStr(path) == ROOT
  {
  }

  /** A file system with no inode in use but a well-formed root is sound and has no files. */
  lemma FreshInv(fs: FS)
    requires Shape(fs) && fs.ifree == seq(INODES, i => i != 0) && RootOk(fs)
    ensures Inv(fs) && Directory(fs) == map[]
  {
  }

  /** How a round that ends in `g` shows on the disk. */
  ghost predicate RoundDone(fs: FS, fs': FS, r: Outcome, id: nat, pos: nat, n: nat, g: Growth,
                            file: Inode, blk: nat, chr: nat, buf: Block)
  {
    match g
    case Grown =>
      && r.Going? && Staged(fs', r.fs, id, file, blk, buf) && At(blk, chr, pos + 1)
      && InodeOk(file) && HasSlot(file, blk) && 0 <= file.size <= MAX_FILE
    case Full => r.Capped? && r.n == n && Staged(fs', r.fs, id, file, blk, buf) && InodeOk(file) && HasSlot(file, blk)
    case OutOfBlocks => r.NoRoom? && fs' == fs && |fs.bfree| == BLOCKS && LowestFree(fs.bfree, 0) == BLOCKS
    case OffTheEnd => r.Lost?
  }

  /** How a write of `n` bytes with outcome `w` shows: in the result, and on the disk. */
  ghost predicate WriteDone(fs: FS, fs': FS, w: Outcome, n: nat, r: WriteResult)
  {
    match w
    case Going(v) => r == Wrote(n) && fs' == v
    case Capped(v, k) => r == Wrote(k) && fs' == v
    case NoRoom =>
      && r == NoSpace && fs'.inodes == fs.inodes && fs'.ifree == fs.ifree && fs'.magic == fs.magic
      && forall k :: 0 <= k < |fs'.bfree| ==> !fs'.bfree[k]
    case Lost => r == Astray && fs'.inodes == fs.inodes && fs'.ifree == fs.ifree && fs'.magic == fs.magic
  }

  /** The file system is sound and all files but `id` are as they were. */
  ghost predicate OthersKept(fs: FS, fs': FS, id: nat)
    requires Inv(fs)
  {
    Inv(fs') && fs'.ifree == fs.ifree && forall o: nat :: IsFile(fs, o) && o != id ==> Flat(fs', o) == Flat(fs, o)
  }

  lemma PendingAttach(fs: FS, id: nat, nd: Inode, j: nat, k: nat)
    requires Shape(fs) && id < INODES && InodeOk(nd) && j < SLOTS && k < BLOCKS
    ensures Attach(Pending(fs, id, nd), id, j, k)
         == Pending(fs.(bfree := fs.bfree[k := false]), id, nd.(data := nd.data[j := k]))
  {
  }

  lemma PendingSame(fs: FS, id: nat)
    requires Shape(fs) && id < INODES
    ensures InodeOk(fs.inodes[id]) && Pending(fs, id, fs.inodes[id]) == fs
  {
  }

  lemma FillsNothing(fs: FS, id: nat, off: nat)
    requires Shape(fs) && id < INODES && off <= fs.inodes[id].size
    ensures Fill(fs, id, fs.inodes[id].size / BLOCK_SIZE + 1, off / BLOCK_SIZE) == Going(fs)
  {
  }

  lemma NoBytesYet(w: FS, id: nat, off: nat)
    requires Ready(w, id, off)
    ensures Pour(w, id, off, []) == Going(w)
  {
  }

  lemma NoBytes(w: FS, id: nat, off: nat, bs: seq<byte>)
    requires Shape(w) && id < INODES && 0 <= w.inodes[id].size <= MAX_FILE && !HasSlot(w.inodes[id], off / BLOCK_SIZE)
    ensures Pour(w, id, off, bs) == Lost
  {
    assert Pour(w, id, off, []) == Lost;
    PourStops(w, id, off, [], bs);
    assert [] + bs == bs;
  }

  /** A write given up for lack of a block. */
  lemma GivenUp(w: FS, fs: FS, v: FS, id: nat, off: nat, bs: seq<byte>, file: Inode, blk: nat, buf: Block)
    requires Inv(w) && IsFile(w, id) && off <= w.inodes[id].size <= MAX_FILE && Pour(w, id, off, bs) == Going(v)
    requires Staged(fs, v, id, file, blk, buf) && fs.inodes == w.inodes && fs.ifree == w.ifree
    requires blk == (off + |bs|) / BLOCK_SIZE
    ensures OthersKept(w, fs, id)
  {
    PourWithin(w, id, off, bs);
    WrittenSize(w, v, id, off, bs);
    Holds(v.inodes[id].size, off + |bs|);
    hide Pour, Inv, Staged, Flat, Written;
    assert Owns(v, id, blk);
    Unsaved(w, fs, v, id, off, bs, file, blk, buf);
  }

  /** What `sfs_write` promises for a file. A write that starts within the file, unless it runs past
      the end of a file of maximal size, succeeds if and only if as many blocks are free as it needs.
      What it writes is spliced into the file (all of it, or as much as fits below the maximal size)
      and every other file is unchanged; if there is no room, the file system is still sound and the
      other files are unchanged. A write beyond the end of the file never gives it the right size; when
      it succeeds and when the file system is sound after it is stated exactly. */
  ghost predicate FileWriteSpec(fs0: FS, fs: FS, id: nat, buf: seq<byte>, offset: nat, r: WriteResult)
    requires Inv(fs0) && Shape(fs) && IsFile(fs0, id) && FileOk(fs0, id)
  {
    var size := fs0.inodes[id].size;
    && r != NoFile
    && (offset <= size && r == Astray ==> size == MAX_FILE <= offset + |buf|)
    && (offset <= size ==> (r == NoSpace <==> FreeBlocks(fs0.bfree) < Need(size, offset, |buf|)))
    && (offset <= size && r == NoSpace ==> OthersKept(fs0, fs, id))
    && (offset <= size && r.Wrote? ==>
          && r.n == (if size < MAX_FILE && offset + |buf| > MAX_FILE then MAX_FILE - offset else |buf|)
          && r.n <= |buf| && Written(fs0, fs, id, offset, buf[..r.n])
          && FreeBlocks(fs.bfree) == FreeBlocks(fs0.bfree) - Need(size, offset, |buf|))
    && (offset > size ==> (r.Wrote? <==> CanWrite(fs0, id, offset, |buf|)))
    && (offset > size && r.Wrote? ==>
          && r.n == |buf| && fs.inodes[id].size == size + |buf| && size + |buf| < MAX_FILE
          && (Inv(fs) <==> Claims(fs0, id, offset, |buf|)))
  }

  lemma Promised(fs0: FS, fs: FS, id: nat, buf: seq<byte>, offset: nat, r: WriteResult)
    requires Inv(fs0) && Shape(fs) && IsFile(fs0, id) && FileOk(fs0, id) && buf != []
    requires 0 <= fs0.inodes[id].size <= MAX_FILE
    requires WriteDone(fs0, fs, WriteOf(fs0, id, offset, buf), |buf|, r)
    requires r == NoSpace && offset <= fs0.inodes[id].size ==> OthersKept(fs0, fs, id)
    ensures FileWriteSpec(fs0, fs, id, buf, offset, r)
  {
    hide WriteOf, Inv, FileOk, Written, Pour, Shape, FreeBlocks, OthersKept, Need;
    if offset <= fs0.inodes[id].size {
      NoHole(fs0, id, offset, buf);
      PourWithin(fs0, id, offset, buf);
      PourRoom(fs0, id, offset, buf);
      assert buf[..|buf|] == buf;
    } else {
      hide CanWrite, Claims;
      WriteBeyond(fs0, id, offset, buf);
      BeyondIff(fs0, id, offset, buf);
      if r.Wrote? { SoundIff(fs0, id, offset, buf); }
    }
  }

  lemma ClearedOne(fs: FS, data: seq<int>, k: nat)
    requires Shape(fs) && k < |data| && data[k] >= 0
    ensures var c := Cleared(fs, data, k);
      Cleared(fs, data, k + 1) == c.(bfree := Marked(c.bfree, data[k], true))
  {
  }

  lemma ClearedAll(fs: FS, id: nat)
    requires Shape(fs) && id < INODES && 0 <= fs.inodes[id].size
    ensures InodeOk(fs.inodes[id]) && Cleared(fs, fs.inodes[id].data, 0) == fs
    ensures var nd := fs.inodes[id];
      nd.size / BLOCK_SIZE + 2 <= SLOTS ==>
        Unlinked(fs, id) == Cleared(fs, nd.data, nd.size / BLOCK_SIZE + 2).(ifree := fs.ifree[id := true])
    ensures forall k: nat :: k <= SLOTS ==> Cleared(fs, fs.inodes[id].data, k).ifree == fs.ifree
    ensures forall k: nat :: k <= SLOTS ==> Cleared(fs, fs.inodes[id].data, k).magic == fs.magic
  {
    var nd := fs.inodes[id];
    assert Cleared(fs, nd.data, 0).bfree == fs.bfree;
    if nd.size / BLOCK_SIZE + 2 <= SLOTS {
      assert Unlinked(fs, id).bfree == Cleared(fs, nd.data, nd.size / BLOCK_SIZE + 2).bfree;
    }
  }

  /** A create or a write, with the arguments the file system is called with. */
  predicate Plain(c: Call) {
    match c
    case Make(path, mode) => |path| == PATH && mode < 0x1_0000_0000
    case Store(_, _, _) => true
    case Remove(_) => false
  }

  lemma TraceMore(fss: seq<FS>, cs: seq<Call>, c: Call, fs: FS)
    requires Trace(fss, cs) && Inv(fss[|cs|]) && Step(fss[|cs|], c, fs)
    ensures Trace(fss + [fs], cs + [c])
  {
    hide Inv, Step;
  }

  /** After a write the file is found under the same name and holds what was written. */
  lemma ReadBack(fs: FS, fs': FS, path: seq<byte>, id: nat, off: nat, bs: seq<byte>)
    requires Inv(fs) && IsFile(fs, id) && off <= fs.inodes[id].size && Written(fs, fs', id, off, bs)
    requires id == Lookup(fs, path, 0)
    ensures Lookup(fs', path, 0) == id && IsFile(fs', id) && FileOk(fs', id)
    ensures off + |bs| <= fs'.inodes[id].size && Flat(fs', id)[off..off + |bs|] == bs
  {
    WrittenSize(fs, fs', id, off, bs);
    hide Flat, FileOk, Exclusive;
    LookupIs(fs', path, 0, id);
  }

  /** All the slots that a read of `n` bytes loads name data blocks; one slot is loaded ahead. */
  predicate Readable(nd: Inode, off: nat, n: nat) {
    forall j :: off / BLOCK_SIZE <= j <= (off + n) / BLOCK_SIZE ==> HasSlot(nd, j)
  }

  /** The byte to which position `k` of inode `id` leads, within its size or not. */
  ghost function RawByte(fs: FS, id: nat, k: nat): byte
    requires Shape(fs) && id < INODES && HasSlot(fs.inodes[id], k / BLOCK_SIZE)
  {
    fs.data[fs.inodes[id].data[k / BLOCK_SIZE]][k % BLOCK_SIZE]
  }

  ghost predicate IsRaw(fs: FS, id: nat, off: nat, n: nat, bs: seq<byte>)
    requires Shape(fs) && id < INODES && Readable(fs.inodes[id], off, n)
  {
    |bs| == n && forall j: nat :: j < n ==> bs[j] == RawByte(fs, id, off + j)
  }

  /** What `sfs_read` promises for a file that ends at or behind the offset: the bytes within the file
      are the file's, and a range inside it is returned. */
  ghost predicate ReadSpec(fs: FS, id: nat, offset: nat, n: nat, r: ReadResult)
    requires Inv(fs) && IsFile(fs, id) && FileOk(fs, id)
  {
    var f := Flat(fs, id);
    && (r.Got? ==> |r.bytes| == n && forall j :: 0 <= j < n && offset + j < |f| ==> r.bytes[j] == f[offset + j])
    && (offset + n <= |f| && offset + n < MAX_FILE ==> r == Got(f[offset..offset + n]))
  }

  lemma ReadPromised(fs: FS, id: nat, offset: nat, n: nat, r: ReadResult)
    requires Inv(fs) && IsFile(fs, id) && FileOk(fs, id)
    requires if offset > fs.inodes[id].size then r == PastEnd
             else if n == 0 then r == Got([])
             else if Readable(fs.inodes[id], offset, n) then r.Got? && IsRaw(fs, id, offset, n, r.bytes)
             else r == Stray
    ensures ReadSpec(fs, id, offset, n, r)
  {
    hide Inv;
    var size, f := fs.inodes[id].size, Flat(fs, id);
    if offset + n <= size && offset + n < MAX_FILE {
      Holds(size, offset + n);
      assert Readable(fs.inodes[id], offset, n);
    }
    if r.Got? && n > 0 {
      forall j: nat | j < n && offset + j < size ensures r.bytes[j] == f[offset + j] {
        Holds(size, offset + j);
      }
    }
  }

  /** A path is found at the root inode if it is the root's, and at a file otherwise. */
  lemma Found(fs: FS, path: seq<byte>, id: nat)
    requires Inv(fs) && id == Lookup(fs, path, 0) < INODES
    ensures id == 0 <==> CStr(path) == ROOT
    ensures id == 0 ==> fs.inodes[0].size == 0 && fs.inodes[0].id == 0 && fs.inodes[0].hardlinks == 2
    ensures id != 0 ==> IsFile(fs, id) && FileOk(fs, id)
  {
  }

  class Disk {
    const disk: array<Block>

    constructor (blocks: array<Block>)
      requires blocks.Length == DISK
      ensures Valid() && disk == blocks
    {
      disk := blocks;
    }

    ghost predicate Valid()
      reads this, disk
    {
      disk.Length == DISK
    }

    ghost function FileSystem(): FS
      requires Valid()
      reads this, disk
    {
      Abs(disk[..])
    }

    method IsBlockFree(n: nat) returns (r: int)
      requires Valid() && n < BLOCKS
      ensures r == if FileSystem().bfree[n] then 1 else 0
    {
      hide Bit;
      var buf := disk[1];
      BitIsShift(buf[n / 8], n % 8);
      r := And(Shr(buf[n / 8], n % 8), 1);
    }

    method SetBlock(n: nat, setting: int)
      requires Valid() && n < 8 * BLOCK_SIZE
      modifies disk
      ensures FileSystem() == old(FileSystem()).(bfree := Marked(old(FileSystem()).bfree, n, setting == 1))
    {
      hide Abs, SetMark;
      ghost var d := disk[..];
      AbsBlockMark(d, n, setting == 1);
      disk[1] := SetMark(disk[1], 0, n, setting == 1);
      assert disk[..] == d[1 := SetMark(d[1], 0, n, setting == 1)];
    }

    method IsInodeFree(n: nat) returns (r: int)
      requires Valid() && n < INODES
      ensures r == if FileSystem().ifree[n] then 1 else 0
    {
      hide Bit;
      var buf := disk[0];
      BitIsShift(buf[MAP_BASE + n / 8], n % 8);
      r := And(Shr(buf[MAP_BASE + n / 8], n % 8), 1);
    }

    method SetInode(n: nat, setting: int)
      requires Valid() && n < INODES
      modifies disk
      ensures FileSystem() == old(FileSystem()).(ifree := old(FileSystem()).ifree[n := setting == 1])
    {
      hide Abs, SetMark;
      ghost var d := disk[..];
      AbsInodeMark(d, n, setting == 1);
      disk[0] := SetMark(disk[0], MAP_BASE, n, setting == 1);
      assert disk[..] == d[0 := SetMark(d[0], MAP_BASE, n, setting == 1)];
    }

    method ReadInode(n: nat) returns (nd: Inode)
      requires Valid() && n < INODES
      ensures nd == FileSystem().inodes[n]
    {
      hide InodeIn;
      nd := InodeIn(disk[INODE_START + n / PER_BLOCK], n % PER_BLOCK);
    }

    method WriteInode(nd: Inode)
      requires Valid() && InodeOk(nd) && 0 <= nd.id < INODES
      modifies disk
      ensures FileSystem() == old(FileSystem()).(inodes := old(FileSystem()).inodes[nd.id := nd])
    {
      hide Abs, PutInode;
      ghost var d := disk[..];
      var n := nd.id;
      AbsInode(d, n, nd);
      var block := INODE_START + n / PER_BLOCK;
      disk[block] := PutInode(disk[block], n % PER_BLOCK, nd);
      assert disk[..] == d[block := PutInode(d[block], n % PER_BLOCK, nd)];
    }

    method ReadData(d: nat) returns (b: Block)
      requires Valid() && d < BLOCKS
      ensures b == FileSystem().data[d]
    {
      b := disk[D_BLOCK_START + d];
    }

    method WriteData(d: nat, b: Block)
      requires Valid() && d < BLOCKS
      modifies disk
      ensures FileSystem() == old(FileSystem()).(data := old(FileSystem()).data[d := b])
    {
      hide Abs;
      ghost var before := disk[..];
      AbsData(before, d, b);
      disk[D_BLOCK_START + d] := b;
      assert disk[..] == before[D_BLOCK_START + d := b];
    }

    /** The lowest free data block, -1 if there is none. */
    method FindNextOpenBlock() returns (r: int)
      requires Valid()
      ensures r == -1 ==> forall n :: 0 <= n < BLOCKS ==> !FileSystem().bfree[n]
      ensures r == if LowestFree(FileSystem().bfree, 0) == BLOCKS then -1 else LowestFree(FileSystem().bfree, 0)
    {
      hide Abs, LowestFree;
      for i := 0 to BLOCKS
        invariant forall n :: 0 <= n < i ==> !FileSystem().bfree[n]
      {
        var free := IsBlockFree(i);
        if free == 1 {
          LowestFreeIs(FileSystem().bfree, 0, i);
          return i;
        }
      }
      LowestFreeIs(FileSystem().bfree, 0, BLOCKS);
      r := -1;
    }

    /** `checkiNodePathName`: the record of the first inode in use with this path. */
    method CheckPath(path: seq<byte>) returns (nd: Inode)
      requires Valid()
      ensures var k := Lookup(FileSystem(), path, 0);
              if k < INODES then nd == FileSystem().inodes[k] else nd.id == -1
      ensures Terminated(path) ==> FirstNamed(FileSystem(), path, Lookup(FileSystem(), path, 0))
    {
      hide Abs, Lookup;
      for i := 0 to INODES
        invariant forall j :: 0 <= j < i ==> FileSystem().ifree[j] || CStr(FileSystem().inodes[j].path) != CStr(path)
      {
        var free := IsInodeFree(i);
        if free == 0 {
          nd := ReadInode(i);
          if CStr(path) == CStr(nd.path) {
            LookupIs(FileSystem(), path, 0, i);
            LookupNames(FileSystem(), path);
            return;
          }
        }
      }
      LookupIs(FileSystem(), path, 0, INODES);
      LookupNames(FileSystem(), path);
      nd := Inode(-1, [], [], 0, 0, [], 0);
    }

    /** `sfs_create`, with the 256 bytes found at the path. */
    method Create(path: seq<byte>, mode: nat) returns (r: CreateResult)
      requires Valid() && |path| == PATH && mode < 0x1_0000_0000
      modifies disk
      ensures var fs := old(FileSystem()); var id, blk := LowestFree(fs.ifree, 0), LowestFree(fs.bfree, 0);
        if id == INODES then r == NoInode && FileSystem() == fs
        else if blk == BLOCKS then r == NoBlock(id) && FileSystem() == fs.(ifree := fs.ifree[id := false])
        else r == NewFile(id) && FileSystem() == Created(fs, id, path, mode, blk)
      ensures Inv(old(FileSystem())) && r.NewFile? ==> Step(old(FileSystem()), Make(path, mode), FileSystem())
    {
      hide Abs, Inv, LowestFree;
      ghost var fs := FileSystem();
      for i := 0 to INODES
        invariant FileSystem() == fs
        invariant forall j :: 0 <= j < i ==> !fs.ifree[j]
      {
        var free := IsInodeFree(i);
        if free == 1 {
          LowestFreeIs(fs.ifree, 0, i);
          SetInode(i, 0);
          var nd := ReadInode(i);
          nd := nd.(id := i, size := 0, mode := mode, hardlinks := 1, path := path);
          var blk := FindNextOpenBlock();
          if blk == -1 {
            return NoBlock(i);
          }
          nd := nd.(data := nd.data[0 := blk]);
          SetBlock(blk, 0);
          WriteInode(nd);
          return NewFile(i);
        }
      }
      LowestFreeIs(fs.ifree, 0, INODES);
      r := NoInode;
    }

    /** `sfs_read`. It returns as many bytes as were asked for, whatever the size of the file: those
        that the slots lead to. Those within the file are the file's. */
    method Read(path: seq<byte>, n: nat, offset: nat) returns (r: ReadResult)
      requires Valid() && Inv(FileSystem())
      ensures var fs, id := FileSystem(), Lookup(FileSystem(), path, 0);
        if id == INODES then r == BadFile
        else if offset > fs.inodes[id].size then r == PastEnd
        else if n == 0 then r == Got([])
        else if Readable(fs.inodes[id], offset, n) then r.Got? && IsRaw(fs, id, offset, n, r.bytes)
        else r == Stray
      ensures var fs, id := FileSystem(), Lookup(FileSystem(), path, 0);
        0 < id < INODES ==> IsFile(fs, id) && FileOk(fs, id) && ReadSpec(fs, id, offset, n, r)
    {
      hide Abs, Lookup, Inv, Flat, IsRaw, Readable, ReadSpec, FileOk;
      ghost var fs := FileSystem();
      ghost var id := Lookup(fs, path, 0);
      if id < INODES { Found(fs, path, id); }
      var file := CheckPath(path);
      if file.id == -1 {
        return BadFile;
      }
      if offset > file.size {
        r := PastEnd;
      } else if n == 0 {
        r := Got([]);
      } else {
        r := ReadFile(file, n, offset, id);
      }
      if id != 0 { ReadPromised(fs, id, offset, n, r); }
    }

    /** `sfs_read` once the file is found. */
    method ReadFile(file: Inode, n: nat, offset: nat, ghost id: nat) returns (r: ReadResult)
      requires Valid() && id < INODES && file == FileSystem().inodes[id] && n > 0
      ensures if Readable(file, offset, n) then r.Got? && IsRaw(FileSystem(), id, offset, n, r.bytes) else r == Stray
    {
      hide Abs;
      ghost var fs := FileSystem();
      var blk: nat, chr: nat := offset / BLOCK_SIZE, offset % BLOCK_SIZE;
      if blk >= SLOTS || !(0 <= file.data[blk] < BLOCKS) {
        assert !HasSlot(file, blk);
        return Stray;
      }
      var diskbuf := ReadData(file.data[blk]);
      var out: seq<byte> := [];
      for i := 0 to n
        invariant At(blk, chr, offset + i) && HasSlot(file, blk) && diskbuf == fs.data[file.data[blk]]
        invariant Readable(file, offset, i) && IsRaw(fs, id, offset, i, out)
      {
        AtIs(blk, chr, offset + i);
        out := out + [diskbuf[chr]];
        chr := chr + 1;
        if chr % BLOCK_SIZE == 0 {
          blk := blk + 1;
          if blk >= SLOTS || !(0 <= file.data[blk] < BLOCKS) {
            AtIs(blk, 0, offset + i + 1);
            assert !HasSlot(file, blk);
            return Stray;
          }
          diskbuf := ReadData(file.data[blk]);
          chr := 0;
        }
      }
      r := Got(out);
    }

    /** The size of `file` goes up by one; where that fills the block in slot `blk`, the lowest free
        block is marked used and put in the next slot. */
    method Grow(file: Inode, blk: nat) returns (g: Growth, file': Inode)
      requires Valid() && InodeOk(file) && 0 <= file.size < MAX_FILE
      modifies disk
      ensures GrownTo(old(FileSystem()), FileSystem(), file, file', blk, LowestFree(old(FileSystem()).bfree, 0), g)
    {
      hide Abs, LowestFree;
      g := Grown;
      file' := file.(size := file.size + 1);
      if file'.size % BLOCK_SIZE == 0 {
        if file'.size == MAX_FILE {
          g := Full;
          return;
        }
        var nbl := FindNextOpenBlock();
        if nbl == -1 {
          g := OutOfBlocks;
          return;
        }
        if blk + 1 >= SLOTS {
          g := OffTheEnd;
          return;
        }
        file' := file'.(data := file'.data[blk + 1 := nbl]);
        SetBlock(nbl, 0);
      }
    }

    /** The buffered block goes to the disk and the next slot's block is loaded. */
    method NextBlock(file: Inode, blk: nat, diskbuf: Block, ghost v: FS, ghost id: nat)
      returns (ok: bool, diskbuf': Block)
      requires Valid() && InodeOk(file) && HasSlot(file, blk) && Staged(FileSystem(), v, id, file, blk, diskbuf)
      modifies disk
      ensures FileSystem() == old(FileSystem()).(data := old(FileSystem()).data[file.data[blk] := diskbuf])
      ensures ok <==> HasSlot(file, blk + 1)
      ensures ok ==> Staged(FileSystem(), v, id, file, blk + 1, diskbuf')
    {
      hide Abs, Staged;
      ghost var fs := FileSystem();
      WriteData(file.data[blk], diskbuf);
      if blk + 1 >= SLOTS || !(0 <= file.data[blk + 1] < BLOCKS) {
        return false, diskbuf;
      }
      StageNext(fs, v, id, file, blk, diskbuf);
      diskbuf' := ReadData(file.data[blk + 1]);
      ok := true;
    }

    /** One round of the write loop: on the staged file system `v` it is `Round`. */
    method PutByte(b: byte, file: Inode, diskbuf: Block, blk: nat, chr: nat,
                   ghost v: FS, ghost id: nat, ghost pos: nat, ghost n: nat)
      returns (g: Growth, file': Inode, diskbuf': Block, blk': nat, chr': nat)
      requires Valid() && InodeOk(file) && 0 <= file.size <= MAX_FILE && HasSlot(file, blk) && At(blk, chr, pos)
      requires Staged(FileSystem(), v, id, file, blk, diskbuf)
      modifies disk
      ensures FileSystem().inodes == old(FileSystem()).inodes && FileSystem().ifree == old(FileSystem()).ifree
      ensures FileSystem().magic == old(FileSystem()).magic
      ensures Ready(v, id, pos) && (g == Grown || g == Full ==> file'.id == file.id)
      ensures RoundDone(old(FileSystem()), FileSystem(), Round(v, id, pos, b, n), id, pos, n, g, file', blk', chr',
        diskbuf')
    {
      hide Abs, Staged, LowestFree, Round, Shape;
      ghost var fs := FileSystem();
      diskbuf' := diskbuf[chr := b];
      chr' := chr + 1;
      blk', file' := blk, file;
      g := Grown;
      if chr' + blk * BLOCK_SIZE > file.size {
        g, file' := Grow(file, blk);
      }
      StageRound(fs, FileSystem(), v, id, file, file', blk, chr, diskbuf, pos, b, n, g);
      if g != Grown {
        return;
      }
      ghost var u :| Staged(FileSystem(), u, id, file', blk, diskbuf')
                     && (Round(v, id, pos, b, n).Going? ==> Round(v, id, pos, b, n).fs == u);
      if chr' % BLOCK_SIZE == 0 {
        var ok: bool;
        ok, diskbuf' := NextBlock(file', blk, diskbuf', u, id);
        if !ok {
          g := OffTheEnd;
          return;
        }
        blk' := blk + 1;
        chr' := 0;
      }
    }

    /** The loop that is meant to fill a hole before `blk`, counting from `blksOwned` on. */
    method FillHole(file: Inode, blk: nat, ghost id: nat) returns (r: Growth, file': Inode)
      requires Valid() && InodeOk(file) && 0 <= file.size <= MAX_FILE && id < INODES
      modifies disk
      ensures FileSystem() == old(FileSystem()).(bfree := FileSystem().bfree)
      ensures InodeOk(file') && file'.id == file.id && file'.size == file.size
      ensures var w := Fill(Pending(old(FileSystem()), id, file), id, file.size / BLOCK_SIZE + 1, blk);
        match r
        case Grown => w == Going(Pending(FileSystem(), id, file'))
        case OutOfBlocks => w == NoRoom && LowestFree(FileSystem().bfree, 0) == BLOCKS
        case OffTheEnd => w == Lost
        case Full => false
    {
      hide Abs, Shape, LowestFree;
      file' := file;
      var blksOwned := file.size / BLOCK_SIZE + 1;
      ghost var w := Fill(Pending(FileSystem(), id, file), id, blksOwned, blk);
      while blk > blksOwned
        invariant FileSystem() == old(FileSystem()).(bfree := FileSystem().bfree)
        invariant InodeOk(file') && file'.id == file.id && file'.size == file.size
        invariant w == Fill(Pending(FileSystem(), id, file'), id, blksOwned, blk)
      {
        ghost var fs, nd := FileSystem(), file';
        var nextBlk := FindNextOpenBlock();
        if nextBlk == -1 {
          return OutOfBlocks, file';
        }
        if blksOwned + 1 >= SLOTS {
          return OffTheEnd, file';
        }
        file' := file'.(data := file'.data[blksOwned + 1 := nextBlk]);
        SetBlock(nextBlk, 0);
        PendingAttach(fs, id, nd, blksOwned + 1, nextBlk);
        blksOwned := blksOwned + 1;
      }
      r := Grown;
    }

    /** `sfs_write` to an open handle. */
    method Write(path: seq<byte>, buf: seq<byte>, offset: nat, fh: int) returns (r: WriteResult)
      requires Valid() && Inv(FileSystem())
      modifies disk
      ensures var fs, id := old(FileSystem()), Lookup(old(FileSystem()), path, 0);
        if id == INODES || fh == -1 then r == NoFile && FileSystem() == fs
        else if buf == [] then r == Wrote(0) && FileSystem() == fs
        else && 0 <= fs.inodes[id].size <= MAX_FILE
             && WriteDone(fs, FileSystem(), WriteOf(fs, id, offset, buf), |buf|, r)
             && (id == 0 <==> CStr(path) == ROOT)
             && (id != 0 ==> IsFile(fs, id) && FileOk(fs, id) && FileWriteSpec(fs, FileSystem(), id, buf, offset, r))
      ensures FileSystem().magic == old(FileSystem()).magic
    {
      hide Abs, Lookup, Inv, WriteOf, Pour, Fill, FileOk, FileWriteSpec, Shape;
      ghost var fs := FileSystem();
      ghost var id := Lookup(fs, path, 0);
      if id < INODES { Found(fs, path, id); }
      var file := CheckPath(path);
      if file.id == -1 || fh == -1 {
        return NoFile;
      }
      if |buf| == 0 {
        return Wrote(0);
      }
      r := WriteFile(file, buf, offset, id);
      WriteMagic(fs, id, offset, buf);
      if id != 0 { Promised(fs, FileSystem(), id, buf, offset, r); }
    }

    /** `sfs_write` once the file is found. */
    method WriteFile(file0: Inode, buf: seq<byte>, offset: nat, ghost id: nat) returns (r: WriteResult)
      requires Valid() && Inv(FileSystem()) && id < INODES && file0 == FileSystem().inodes[id] && file0.id == id
      requires 0 <= file0.size <= MAX_FILE && buf != []
      modifies disk
      ensures WriteDone(old(FileSystem()), FileSystem(), WriteOf(old(FileSystem()), id, offset, buf), |buf|, r)
      ensures r == NoSpace && IsFile(old(FileSystem()), id) && offset <= file0.size ==>
        OthersKept(old(FileSystem()), FileSystem(), id)
    {
      hide Abs, Inv, Pour, Fill, Staged, Shape, OthersKept, LowestFree;
      ghost var fs := FileSystem();
      PendingSame(fs, id);
      var file := file0;
      var blk: nat, chr: nat := offset / BLOCK_SIZE, offset % BLOCK_SIZE;
      if IsFile(fs, id) && offset <= file.size { FillsNothing(fs, id, offset); }
      var hole: Growth;
      hole, file := FillHole(file, blk, id);
      if hole == OutOfBlocks {
        return NoSpace;
      }
      if hole == OffTheEnd {
        return Astray;
      }
      ghost var w := Pending(FileSystem(), id, file);
      if blk >= SLOTS || !(0 <= file.data[blk] < BLOCKS) {
        NoBytes(w, id, offset, buf);
        return Astray;
      }
      StageLoad(FileSystem(), id, file, blk);
      var diskbuf := ReadData(file.data[blk]);
      r := PutBytes(buf, file, diskbuf, blk, chr, w, id, offset);
    }

    /** The write loop, and the buffer and the inode saved after it. */
    method PutBytes(buf: seq<byte>, file0: Inode, diskbuf0: Block, blk0: nat, chr0: nat,
                    ghost w: FS, ghost id: nat, ghost offset: nat)
      returns (r: WriteResult)
      requires Valid() && InodeOk(file0) && file0.id == id && 0 <= file0.size <= MAX_FILE && buf != []
      requires HasSlot(file0, blk0) && At(blk0, chr0, offset) && Staged(FileSystem(), w, id, file0, blk0, diskbuf0)
      modifies disk
      ensures WriteDone(old(FileSystem()), FileSystem(), Pour(w, id, offset, buf), |buf|, r)
      ensures r == NoSpace && Inv(w) && w == old(FileSystem()) && IsFile(w, id) && offset <= file0.size ==>
        OthersKept(w, FileSystem(), id)
    {
      hide Abs, Inv, Pour, Round, Staged, Shape, OthersKept, LowestFree;
      var file, diskbuf := file0, diskbuf0;
      var blk: nat, chr: nat := blk0, chr0;
      ghost var v := w;
      AtIs(blk, chr, offset);
      NoBytesYet(w, id, offset);
      assert buf[..0] == [];
      for i := 0 to |buf|
        invariant FileSystem().inodes == old(FileSystem()).inodes && FileSystem().ifree == old(FileSystem()).ifree
        invariant FileSystem().magic == old(FileSystem()).magic
        invariant Pour(w, id, offset, buf[..i]) == Going(v) && Staged(FileSystem(), v, id, file, blk, diskbuf)
        invariant InodeOk(file) && file.id == id && 0 <= file.size <= MAX_FILE
        invariant At(blk, chr, offset + i) && HasSlot(file, blk)
      {
        ghost var fs, bs := FileSystem(), buf[..i];
        assert buf[..i + 1] == bs + [buf[i]];
        PourStep(w, id, offset, bs, buf[i]);
        PourStops(w, id, offset, buf[..i + 1], buf[i + 1..]);
        assert buf[..i + 1] + buf[i + 1..] == buf;
        var g: Growth;
        ghost var file1, blk1, diskbuf1 := file, blk, diskbuf;
        g, file, diskbuf, blk, chr := PutByte(buf[i], file, diskbuf, blk, chr, v, id, offset + i, i + 1);
        if g == OutOfBlocks {
          if Inv(w) && w == old(FileSystem()) && IsFile(w, id) && offset <= file0.size {
            GivenUp(w, fs, v, id, offset, bs, file1, blk1, diskbuf1);
          }
          return NoSpace;
        }
        if g == OffTheEnd {
          return Astray;
        }
        v := Round(v, id, offset + i, buf[i], i + 1).fs;
        if g == Full {
          Save(file, blk, diskbuf, v, id);
          return Wrote(i + 1);
        }
      }
      assert buf[..|buf|] == buf;
      Save(file, blk, diskbuf, v, id);
      r := Wrote(|buf|);
    }

    /** The buffered block and the inode go to the disk. */
    method Save(file: Inode, blk: nat, diskbuf: Block, ghost v: FS, ghost id: nat)
      requires Valid() && InodeOk(file) && file.id == id && HasSlot(file, blk)
      requires Staged(FileSystem(), v, id, file, blk, diskbuf)
      modifies disk
      ensures FileSystem() == v
    {
      hide Abs;
      WriteData(file.data[blk], diskbuf);
      WriteInode(file);
    }

    /** `sfs_unlink`. It frees one slot more than the file owns; where that slot, or the slot behind
        the last, names no bit of the bitmap's block, what happens is not modelled. */
    method Unlink(path: seq<byte>) returns (r: RemoveResult)
      requires Valid() && Inv(FileSystem())
      modifies disk
      ensures var fs, id := old(FileSystem()), Lookup(old(FileSystem()), path, 0);
        if id == INODES then r == NotFound && FileSystem() == fs
        else && 0 <= fs.inodes[id].size && r == (if Clearable(fs.inodes[id]) then Removed else Outside)
             && (r == Removed ==> FileSystem() == Unlinked(fs, id))
             && (id != 0 ==> IsFile(fs, id) && (r == Removed && Inv(FileSystem()) <==> Removable(fs, id)))
      ensures FileSystem().magic == old(FileSystem()).magic
    {
      hide Abs, Lookup, Inv, Cleared, Unlinked, FileOk, Shape;
      ghost var fs := FileSystem();
      ghost var id := Lookup(fs, path, 0);
      if id < INODES {
        Found(fs, path, id);
        if id != 0 { UnlinkedIff(fs, id); }
        ClearedAll(fs, id);
      }
      var file := CheckPath(path);
      if file.id == -1 {
        return NotFound;
      }
      file := file.(hardlinks := file.hardlinks - 2);
      if file.hardlinks < 1 {
        for i := 0 to file.size / BLOCK_SIZE + 2
          invariant i <= SLOTS && FileSystem() == Cleared(fs, file.data, i)
          invariant forall j :: 0 <= j < i ==> 0 <= file.data[j] < 8 * BLOCK_SIZE
        {
          if i >= SLOTS || !(0 <= file.data[i] < 8 * BLOCK_SIZE) {
            return Outside;
          }
          SetBlock(file.data[i], 1);
          ClearedOne(fs, file.data, i);
        }
      }
      SetInode(file.id, 1);
      r := Removed;
    }

    // ---- Runs of calls -----------------------------------------------------------------------

    /** Carry out one call; it fails only where it cannot succeed. */
    method Carry(c: Call) returns (ok: bool)
      requires Valid() && Inv(FileSystem()) && Plain(c)
      modifies disk
      ensures ok ==> Step(old(FileSystem()), c, FileSystem())
      ensures !ok ==> forall fs :: !Step(old(FileSystem()), c, fs)
    {
      hide Abs, Inv, LowestFree, Lookup, Pour, WriteOf, FileWriteSpec, FileOk;
      match c
      case Make(path, mode) =>
        var r := Create(path, mode);
        ok := r.NewFile?;
      case Store(path, off, bs) =>
        ghost var fs, id := FileSystem(), Lookup(FileSystem(), path, 0);
        if id < INODES { Found(fs, path, id); }
        var file := CheckPath(path);
        if file.id <= 0 || off > file.size || bs == [] {
          return false;
        }
        var r := Write(path, bs, off, 0);
        ok := r == Wrote(|bs|);
    }

    /** Carry out the calls up to the first that cannot succeed. If there is none, the disk stands for
        what the calls make of the directory it stood for. */
    method Perform(calls: seq<Call>) returns (done: nat, ghost fss: seq<FS>)
      requires Valid() && Inv(FileSystem()) && forall i :: 0 <= i < |calls| ==> Plain(calls[i])
      modifies disk
      ensures done <= |calls| && Trace(fss, calls[..done]) && fss[0] == old(FileSystem()) && Inv(fss[done])
      ensures Directory(fss[done]) == DoAll(Directory(old(FileSystem())), calls[..done])
      ensures done < |calls| ==> forall fs :: !Step(fss[done], calls[done], fs)
      ensures done == |calls| ==> FileSystem() == fss[done] && Inv(FileSystem())
                                  && Directory(FileSystem()) == DoAll(Directory(old(FileSystem())), calls)
    {
      hide Abs, Inv, Directory, Step, DoAll;
      fss := [FileSystem()];
      done := 0;
      while done < |calls|
        invariant done <= |calls| && Trace(fss, calls[..done]) && fss[0] == old(FileSystem())
        invariant fss[done] == FileSystem() && Inv(FileSystem())
      {
        ghost var fs := FileSystem();
        var ok := Carry(calls[done]);
        if !ok {
          RunRefines(fss, calls[..done]);
          return;
        }
        StepRefines(fs, calls[done], FileSystem());
        TraceMore(fss, calls[..done], calls[done], FileSystem());
        assert calls[..done + 1] == calls[..done] + [calls[done]];
        fss := fss + [FileSystem()];
        done := done + 1;
      }
      RunRefines(fss, calls[..done]);
      assert calls[..done] == calls;
    }

    /** Carry out a call that can succeed. */
    method CarryOut(c: Call, ghost fs: FS)
      requires Valid() && Inv(FileSystem()) && Step(FileSystem(), c, fs)
      modifies disk
      ensures FileSystem() == fs
    {
      hide Abs, Inv, LowestFree, Lookup, Pour, WriteOf, FileWriteSpec, FileOk, Unlinked, Removable;
      match c
      case Make(path, mode) =>
        var r := Create(path, mode);
      case Store(path, off, bs) =>
        Found(FileSystem(), path, Lookup(FileSystem(), path, 0));
        var r := Write(path, bs, off, 0);
      case Remove(path) =>
        ghost var fs0, id := FileSystem(), Lookup(FileSystem(), path, 0);
        UnlinkedIff(fs0, id);
        var r := Unlink(path);
    }

    /** Carry out a run of creates, writes and removals that can all succeed: the disk goes through the
        states of the run, and in the end stands for what the calls make of the directory. */
    method Replay(calls: seq<Call>, ghost fss: seq<FS>)
      requires Valid() && Inv(FileSystem()) && Trace(fss, calls) && fss[0] == FileSystem()
      modifies disk
      ensures FileSystem() == fss[|calls|] && Inv(FileSystem())
      ensures Directory(FileSystem()) == DoAll(Directory(old(FileSystem())), calls)
      ensures FileSystem().magic == old(FileSystem()).magic
    {
      hide Abs, Inv, Directory, Step, DoAll;
      for i := 0 to |calls|
        invariant FileSystem() == fss[i] && Inv(fss[i]) && fss[i].magic == fss[0].magic
      {
        StepMagic(fss[i], calls[i], fss[i + 1]);
        StepRefines(fss[i], calls[i], fss[i + 1]);
        CarryOut(calls[i], fss[i + 1]);
      }
      RunRefines(fss, calls);
    }

    /** A formatted disk is mounted again after any such run: it is not formatted anew, and stands for the
        same directory. */
    method Remount(calls: seq<Call>, ghost fss: seq<FS>, garbage0: Block, garbage1: Block, garbage: Inode)
      returns (formatted: bool)
      requires Valid() && Inv(FileSystem()) && FileSystem().magic == 6942069
      requires Trace(fss, calls) && fss[0] == FileSystem() && InodeOk(garbage)
      modifies disk
      ensures !formatted && Inv(FileSystem()) && FileSystem().magic == 6942069
      ensures Directory(FileSystem()) == DoAll(Directory(old(FileSystem())), calls)
    {
      hide Abs, Inv, Directory, DoAll, Step;
      Replay(calls, fss);
      formatted := Format(garbage0, garbage1, garbage);
    }

    /** `sfs_write`, then `sfs_read` of the same range: where the write starts within the file and ends
        below the maximal size, it finds no room or the bytes written are the bytes read. */
    method WriteThenRead(path: seq<byte>, buf: seq<byte>, offset: nat, fh: int)
      returns (w: WriteResult, r: ReadResult)
      requires Valid() && Inv(FileSystem()) && buf != [] && fh != -1 && offset + |buf| < MAX_FILE
      requires var id := Lookup(FileSystem(), path, 0); 0 < id < INODES && offset <= FileSystem().inodes[id].size
      modifies disk
      ensures w == NoSpace || (w == Wrote(|buf|) && r == Got(buf))
    {
      hide Abs, Lookup, Inv, WriteOf, FileOk, Flat, Written, Shape, Need, FreeBlocks, Readable, IsRaw;
      ghost var fs, id := FileSystem(), Lookup(FileSystem(), path, 0);
      Found(fs, path, id);
      w := Write(path, buf, offset, fh);
      r := Stray;
      if w.Wrote? {
        assert buf[..|buf|] == buf;
        ReadBack(fs, FileSystem(), path, id, offset, buf);
        r := Read(path, |buf|, offset);
      }
    }

    /** `sfs_init` on a disk without the magic number: what the buffers and the root's record hold
        before they are set is arbitrary. */
    method Format(garbage0: Block, garbage1: Block, garbage: Inode) returns (formatted: bool)
      requires Valid() && InodeOk(garbage)
      modifies disk
      ensures formatted <==> old(FileSystem()).magic != 6942069
      ensures FileSystem().magic == 6942069
      ensures !formatted ==> FileSystem() == old(FileSystem())
      ensures formatted ==>
        && Inv(FileSystem()) && FileSystem().ifree == seq(INODES, i => i != 0)
          && FileSystem().bfree == seq(BLOCKS, _ => true)
        && Directory(FileSystem()) == map[] && FileSystem().data == old(FileSystem()).data
        && FileSystem().inodes[0].mode == 0x4000 + 0x1F6
    {
      hide Abs, Splice, SetMark;
      AbsMagic(disk[..]);
      if Decode(disk[0][..4]) == MAGIC {
        return false;
      }
      ghost var fs := FileSystem();
      disk[0] := Splice(garbage0, 0, Encode(MAGIC, 4));
      MagicStored(garbage0);
      var buf := FillOnes(disk[0], MAP_BASE, 16);
      assert buf[..4] == disk[0][..4];
      disk[0] := buf;
      var bmbuf := FillOnes(garbage1, 0, 512);
      disk[1] := bmbuf;
      AbsFresh(old(disk[..]), disk[..]);
      SetInode(0, 0);
      var root := garbage.(id := 0, path := Splice(garbage.path, 0, [0x2F, 0]), mode := 0x41F6, size := 0,
        hardlinks := 2);
      WriteInode(root);
      RootPath(root.path);
      FreshInv(FileSystem());
      formatted := true;
    }
  }
}
