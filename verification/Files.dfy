/** What the disk of assignment3/src/sfs.c means: two bitmaps, an inode table and data blocks, and
    through them one flat byte sequence per file. */
module Files {
  import opened Bytes
  import opened SfsLayout

  /** No file is longer than this; one that is this long owns all its 1024 slots. */
  const MAX_FILE: nat := 16777216

  /** The number that tells a formatted disk, the two bitmaps, the inode table and the data blocks. */
  datatype FS = FS(magic: nat, ifree: seq<bool>, bfree: seq<bool>, inodes: seq<Inode>, data: seq<Block>)

  ghost predicate Shape(fs: FS)
    ensures Shape(fs) ==> |fs.ifree| == |fs.inodes| == INODES && |fs.bfree| == |fs.data| == BLOCKS
  {
    && |fs.ifree| == |fs.inodes| == INODES && |fs.bfree| == |fs.data| == BLOCKS
    && forall i :: 0 <= i < INODES ==> InodeOk(fs.inodes[i])
  }

  /** Number of blocks a file of the given size owns. */
  function Owned(size: nat): (n: nat)
    requires size <= MAX_FILE
    ensures 1 <= n <= SLOTS
  {
    if size == MAX_FILE then SLOTS else size / BLOCK_SIZE + 1
  }

  /** Slot `j` of the record names a data block. */
  predicate HasSlot(nd: Inode, j: nat) {
    j < |nd.data| && 0 <= nd.data[j] < BLOCKS
  }

  predicate IsFile(fs: FS, id: nat) {
    0 < id < INODES && id < |fs.ifree| && !fs.ifree[id]
  }

  /** Every slot a file owns names a data block that is marked used. */
  ghost predicate FileOk(fs: FS, id: nat)
    requires Shape(fs) && id < INODES
  {
    var nd := fs.inodes[id];
    && nd.id == id && 0 <= nd.size <= MAX_FILE && nd.hardlinks == 1
    && forall j :: 0 <= j < Owned(nd.size) ==> 0 <= nd.data[j] < BLOCKS && !fs.bfree[nd.data[j]]
  }

  ghost predicate Owns(fs: FS, id: nat, j: nat)
    requires Shape(fs)
  {
    IsFile(fs, id) && 0 <= fs.inodes[id].size <= MAX_FILE && j < Owned(fs.inodes[id].size)
  }

  /** No block is owned twice, by one file or by two. */
  ghost predicate Exclusive(fs: FS)
    requires Shape(fs)
  {
    forall a: nat, b: nat, j: nat, k: nat ::
      Owns(fs, a, j) && Owns(fs, b, k) && fs.inodes[a].data[j] == fs.inodes[b].data[k] ==> a == b && j == k
  }

  function CStr(s: seq<byte>): seq<byte> {
    if s == [] || s[0] == 0 then [] else [s[0]] + CStr(s[1..])
  }

  /** There is a zero byte, as at the end of a C string. */
  predicate Terminated(p: seq<byte>) {
    0 in p
  }

  /** `strcmp` finds no difference up to the zero byte that ends both. */
  ghost predicate SameString(p: seq<byte>, q: seq<byte>) {
    exists n: nat :: SameUpTo(p, q, n)
  }

  predicate SameUpTo(p: seq<byte>, q: seq<byte>, n: nat) {
    n < |p| && n < |q| && p[..n] == q[..n] && 0 !in p[..n] && p[n] == q[n] == 0
  }

  /** The bytes before the first zero; all of them if there is none. */
  lemma {:induction false} CStrIs(p: seq<byte>)
    ensures var c := CStr(p);
      && |c| <= |p| && c == p[..|c|] && 0 !in c
      && (if Terminated(p) then |c| < |p| && p[|c|] == 0 else c == p)
  {
    if p == [] || p[0] == 0 {
    } else {
      CStrIs(p[1..]);
      assert p == [p[0]] + p[1..];
    }
  }

  /** Two terminated paths are one name if and only if they are the same string. */
  lemma SameName(p: seq<byte>, q: seq<byte>)
    requires Terminated(p) && Terminated(q)
    ensures CStr(p) == CStr(q) <==> SameString(p, q)
  {
    var c, d := CStr(p), CStr(q);
    CStrIs(p);
    CStrIs(q);
    hide CStr;
    if c == d { assert SameUpTo(p, q, |c|); }
    if SameString(p, q) {
      var n: nat :| SameUpTo(p, q, n);
      FirstZero(p, n);
      FirstZero(q, n);
    }
  }

  lemma FirstZero(p: seq<byte>, n: nat)
    requires n < |p| && 0 !in p[..n] && p[n] == 0
    ensures CStr(p) == p[..n]
  {
    var c := CStr(p);
    CStrIs(p);
    hide CStr;
    assert 0 in p;
    assert forall i :: 0 <= i < n ==> p[..n][i] == p[i];
    assert forall i :: 0 <= i < |c| ==> c[i] == p[i];
  }

  const ROOT: seq<byte> := [0x2F]

  /** Inode 0 is the root directory. */
  ghost predicate RootOk(fs: FS)
    requires Shape(fs)
  {
    var nd := fs.inodes[0];
    !fs.ifree[0] && CStr(nd.path) == ROOT && nd.id == 0 && nd.size == 0 && nd.hardlinks == 2
  }

  ghost predicate Inv(fs: FS)
    ensures Inv(fs) ==> Shape(fs)
  {
    && Shape(fs) && Exclusive(fs)
    && (forall id: nat :: IsFile(fs, id) ==> FileOk(fs, id))
    && RootOk(fs)
  }

  /** Byte `k` of file `id`. */
  ghost function ByteAt(fs: FS, id: nat, k: nat): byte
    requires Shape(fs) && IsFile(fs, id) && FileOk(fs, id) && k / BLOCK_SIZE < Owned(fs.inodes[id].size)
  {
    fs.data[fs.inodes[id].data[k / BLOCK_SIZE]][k % BLOCK_SIZE]
  }

  lemma Holds(size: nat, k: nat)
    requires size <= MAX_FILE && (k < size || (k == size && size < MAX_FILE))
    ensures k / BLOCK_SIZE < Owned(size)
  {
  }

  /** The contents of file `id`. */
  ghost function Flat(fs: FS, id: nat): (r: seq<byte>)
    requires Shape(fs) && IsFile(fs, id) && FileOk(fs, id)
    ensures |r| == fs.inodes[id].size
  {
    seq(fs.inodes[id].size, k requires 0 <= k < fs.inodes[id].size => Holds(fs.inodes[id].size, k); ByteAt(fs, id, k))
  }

  /** `f` with `bs` written at `off`, growing if need be. */
  function WriteAt(f: seq<byte>, off: nat, bs: seq<byte>): (r: seq<byte>)
    requires off <= |f|
    ensures |r| == if off + |bs| > |f| then off + |bs| else |f|
  {
    f[..off] + bs + (if off + |bs| < |f| then f[off + |bs|..] else [])
  }

  lemma WriteAtOneMore(f: seq<byte>, off: nat, bs: seq<byte>, b: byte)
    requires off <= |f|
    ensures WriteAt(f, off, bs + [b])
         == if off + |bs| < |f| then WriteAt(f, off, bs)[off + |bs| := b] else WriteAt(f, off, bs) + [b]
  {
  }

  // ---- Names ------------------------------------------------------------------------------------

  /** First inode in use, from `i` on, whose path is `path`; `INODES` if there is none. */
  ghost function Lookup(fs: FS, path: seq<byte>, i: nat): (k: nat)
    requires Shape(fs) && i <= INODES
    ensures i <= k <= INODES
    ensures k < INODES ==> !fs.ifree[k] && CStr(fs.inodes[k].path) == CStr(path)
    ensures forall j :: i <= j < k ==> fs.ifree[j] || CStr(fs.inodes[j].path) != CStr(path)
    decreases INODES - i
  {
    if i == INODES || (!fs.ifree[i] && CStr(fs.inodes[i].path) == CStr(path)) then i else Lookup(fs, path, i + 1)
  }

  lemma LookupIs(fs: FS, path: seq<byte>, i: nat, k: nat)
    requires Shape(fs) && i <= k <= INODES && (k < INODES ==> !fs.ifree[k] && CStr(fs.inodes[k].path) == CStr(path))
    requires forall j :: i <= j < k ==> fs.ifree[j] || CStr(fs.inodes[j].path) != CStr(path)
    ensures Lookup(fs, path, i) == k
    decreases INODES - i
  {
  }

  /** `k` is the first inode in use whose path is the same string, among the terminated ones. */
  ghost predicate FirstNamed(fs: FS, path: seq<byte>, k: nat)
    requires Shape(fs)
  {
    && (k < INODES && Terminated(fs.inodes[k].path) ==> !fs.ifree[k] && SameString(path, fs.inodes[k].path))
    && forall j: nat :: j < k && j < INODES && !fs.ifree[j] && Terminated(fs.inodes[j].path) ==>
         !SameString(path, fs.inodes[j].path)
  }

  lemma LookupNames(fs: FS, path: seq<byte>)
    requires Shape(fs)
    ensures Terminated(path) ==> FirstNamed(fs, path, Lookup(fs, path, 0))
  {
    hide CStr, SameString, Terminated;
    var k := Lookup(fs, path, 0);
    if Terminated(path) {
      forall j: nat | j < INODES && Terminated(fs.inodes[j].path)
        ensures CStr(path) == CStr(fs.inodes[j].path) <==> SameString(path, fs.inodes[j].path)
      {
        SameName(path, fs.inodes[j].path);
      }
    }
  }

  // ---- Writing one byte ----------------------------------------------------------------------

  /** Byte `k` of file `id` overwritten in its block; `k` may be one past the end. */
  ghost function Poke(fs: FS, id: nat, k: nat, b: byte): (r: FS)
    requires Shape(fs) && id < INODES && HasSlot(fs.inodes[id], k / BLOCK_SIZE)
    ensures Shape(r)
  {
    var d := fs.inodes[id].data[k / BLOCK_SIZE];
    fs.(data := fs.data[d := fs.data[d][k % BLOCK_SIZE := b]])
  }

  /** Two slots owned by files of a sound file system never name the same block. */
  lemma Apart(fs: FS, a: nat, j: nat, b: nat, k: nat)
    requires Inv(fs) && Owns(fs, a, j) && Owns(fs, b, k) && (a != b || j != k)
    ensures fs.inodes[a].data[j] != fs.inodes[b].data[k]
  {
  }

  /** Only data blocks differ. */
  lemma SameTables(fs: FS, r: FS)
    requires Inv(fs) && r == fs.(data := r.data) && |r.data| == BLOCKS
    ensures Inv(r)
  {
    assert forall o: nat, j: nat :: Owns(r, o, j) <==> Owns(fs, o, j);
    forall o: nat | IsFile(r, o) ensures FileOk(r, o) { assert FileOk(fs, o); }
  }

  lemma PokeOther(fs: FS, id: nat, k: nat, b: byte, o: nat)
    requires Inv(fs) && IsFile(fs, id) && k / BLOCK_SIZE < Owned(fs.inodes[id].size) && IsFile(fs, o) && o != id
    ensures Inv(Poke(fs, id, k, b)) && Flat(Poke(fs, id, k, b), o) == Flat(fs, o)
  {
    var r := Poke(fs, id, k, b);
    SameTables(fs, r);
    assert FileOk(fs, o) && FileOk(fs, id);
    forall i: nat | i < |Flat(fs, o)| ensures Flat(r, o)[i] == Flat(fs, o)[i] {
      Holds(fs.inodes[o].size, i);
      Apart(fs, o, i / BLOCK_SIZE, id, k / BLOCK_SIZE);
    }
  }

  lemma PokeSelf(fs: FS, id: nat, k: nat, b: byte)
    requires Inv(fs) && IsFile(fs, id) && k / BLOCK_SIZE < Owned(fs.inodes[id].size)
    ensures var r, f := Poke(fs, id, k, b), Flat(fs, id);
      Inv(r) && ByteAt(r, id, k) == b && Flat(r, id) == if k < |f| then f[k := b] else f
  {
    var r := Poke(fs, id, k, b);
    SameTables(fs, r);
    assert FileOk(fs, id);
    forall i: nat | i < |Flat(fs, id)| ensures Flat(r, id)[i] == if i == k then b else Flat(fs, id)[i] {
      Holds(fs.inodes[id].size, i);
      if i / BLOCK_SIZE != k / BLOCK_SIZE {
        Apart(fs, id, i / BLOCK_SIZE, id, k / BLOCK_SIZE);
      }
    }
  }

  // ---- Growing by one byte ---------------------------------------------------------------------

  /** The size goes up by one; where that fills a block, block `nbl` becomes the next one. */
  ghost function Extend(fs: FS, id: nat, nbl: nat): FS
    requires Shape(fs) && id < INODES && 0 <= fs.inodes[id].size < MAX_FILE && nbl < BLOCKS
  {
    var nd := fs.inodes[id];
    var size := nd.size + 1;
    if NeedsBlock(size)
    then fs.(inodes := fs.inodes[id := nd.(size := size, data := nd.data[size / BLOCK_SIZE := nbl])],
             bfree := fs.bfree[nbl := false])
    else fs.(inodes := fs.inodes[id := nd.(size := size)])
  }

  predicate NeedsBlock(size: nat) {
    size % BLOCK_SIZE == 0 && size < MAX_FILE
  }

  /** Which slots a grown file owns: the old ones, and the new one where a block was added. */
  lemma GrownSlots(size: nat, j: nat)
    requires size < MAX_FILE
    ensures j < Owned(size + 1) <==> j < Owned(size) || (NeedsBlock(size + 1) && j == (size + 1) / BLOCK_SIZE)
    ensures NeedsBlock(size + 1) ==> (size + 1) / BLOCK_SIZE == Owned(size) < SLOTS
  {
  }

  lemma ExtendShape(fs: FS, id: nat, nbl: nat)
    requires Inv(fs) && IsFile(fs, id) && fs.inodes[id].size < MAX_FILE && nbl < BLOCKS
    ensures var r := Extend(fs, id, nbl);
      && Shape(r) && r.ifree == fs.ifree && r.data == fs.data
      && (forall o: nat :: o < INODES && o != id ==> r.inodes[o] == fs.inodes[o])
      && r.inodes[id].size == fs.inodes[id].size + 1 && r.inodes[id].path == fs.inodes[id].path
      && (forall j: nat :: j < Owned(fs.inodes[id].size) ==> r.inodes[id].data[j] == fs.inodes[id].data[j])
  {
  }

  /** A slot owned after growing was owned before, or is the new one. */
  lemma ExtendSlot(fs: FS, id: nat, nbl: nat, o: nat, j: nat)
    requires Inv(fs) && IsFile(fs, id) && fs.inodes[id].size < MAX_FILE && nbl < BLOCKS
    requires Shape(Extend(fs, id, nbl)) && Owns(Extend(fs, id, nbl), o, j)
    ensures var r, size := Extend(fs, id, nbl), fs.inodes[id].size;
      if o == id && NeedsBlock(size + 1) && j == (size + 1) / BLOCK_SIZE then r.inodes[o].data[j] == nbl
      else && Owns(fs, o, j) && r.inodes[o].data[j] == fs.inodes[o].data[j]
           && 0 <= r.inodes[o].data[j] < BLOCKS && !fs.bfree[r.inodes[o].data[j]]
  {
    hide Exclusive;
    ExtendShape(fs, id, nbl);
    assert FileOk(fs, o);
    GrownSlots(fs.inodes[id].size, j);
  }

  lemma ExtendExclusive(fs: FS, id: nat, nbl: nat)
    requires Inv(fs) && IsFile(fs, id) && fs.inodes[id].size < MAX_FILE && nbl < BLOCKS
    requires NeedsBlock(fs.inodes[id].size + 1) ==> fs.bfree[nbl]
    ensures Shape(Extend(fs, id, nbl)) && Exclusive(Extend(fs, id, nbl))
  {
    var r := Extend(fs, id, nbl);
    ExtendShape(fs, id, nbl);
    hide Shape, FileOk;
    forall a: nat, b: nat, j: nat, k: nat | Owns(r, a, j) && Owns(r, b, k) && r.inodes[a].data[j] == r.inodes[b].data[k]
      ensures a == b && j == k
    {
      ExtendSlot(fs, id, nbl, a, j);
      ExtendSlot(fs, id, nbl, b, k);
    }
  }

  lemma ExtendKeeps(fs: FS, id: nat, nbl: nat)
    requires Inv(fs) && IsFile(fs, id) && fs.inodes[id].size < MAX_FILE && nbl < BLOCKS
    requires NeedsBlock(fs.inodes[id].size + 1) ==> fs.bfree[nbl]
    ensures Inv(Extend(fs, id, nbl))
  {
    hide Exclusive;
    var r := Extend(fs, id, nbl);
    ExtendShape(fs, id, nbl);
    ExtendExclusive(fs, id, nbl);
    forall o: nat | IsFile(r, o) ensures FileOk(r, o) {
      assert FileOk(fs, o);
      forall j: nat | j < Owned(r.inodes[o].size)
        ensures 0 <= r.inodes[o].data[j] < BLOCKS && !r.bfree[r.inodes[o].data[j]] {
        ExtendSlot(fs, id, nbl, o, j);
      }
    }
  }

  lemma ExtendFlat(fs: FS, id: nat, nbl: nat)
    requires Inv(fs) && IsFile(fs, id) && fs.inodes[id].size < MAX_FILE && nbl < BLOCKS
    requires NeedsBlock(fs.inodes[id].size + 1) ==> fs.bfree[nbl]
    ensures var r, size := Extend(fs, id, nbl), fs.inodes[id].size;
      && Inv(r) && size / BLOCK_SIZE < Owned(size)
      && Flat(r, id) == Flat(fs, id) + [ByteAt(fs, id, size)]
      && forall o: nat :: IsFile(fs, o) && o != id ==> Flat(r, o) == Flat(fs, o)
  {
    hide Exclusive;
    var r, size := Extend(fs, id, nbl), fs.inodes[id].size;
    ExtendKeeps(fs, id, nbl);
    ExtendShape(fs, id, nbl);
    assert FileOk(fs, id) && FileOk(r, id);
    Holds(size, size);
    forall i: nat | i <= size ensures Flat(r, id)[i] == if i < size then Flat(fs, id)[i] else ByteAt(fs, id, size) {
      Holds(size, i);
    }
    forall o: nat | IsFile(fs, o) && o != id ensures Flat(r, o) == Flat(fs, o) {
      assert FileOk(fs, o) && FileOk(r, o);
    }
  }

  // ---- Writing a run of bytes ------------------------------------------------------------------

  /** Byte `pos` written, growing the file where `pos` is its end. */
  ghost function Put(fs: FS, id: nat, pos: nat, b: byte, nbl: nat): FS
    requires Inv(fs) && IsFile(fs, id) && nbl < BLOCKS
    requires pos <= fs.inodes[id].size && pos < MAX_FILE
  {
    assert FileOk(fs, id);
    Holds(fs.inodes[id].size, pos);
    var r := Poke(fs, id, pos, b);
    if pos < fs.inodes[id].size then r else Extend(r, id, nbl)
  }

  /** Relative to `fs0`, file `id` now has `bs` written at `off`, and nothing else is different
      about any file. */
  ghost predicate Written(fs0: FS, fs: FS, id: nat, off: nat, bs: seq<byte>)
    requires Inv(fs0) && IsFile(fs0, id) && off <= fs0.inodes[id].size
    ensures Written(fs0, fs, id, off, bs) ==> Inv(fs)
  {
    && Inv(fs) && fs.ifree == fs0.ifree
    && fs.inodes[id].path == fs0.inodes[id].path
    && Flat(fs, id) == WriteAt(Flat(fs0, id), off, bs)
    && (forall o: nat :: IsFile(fs0, o) && o != id ==> fs.inodes[o] == fs0.inodes[o] && Flat(fs, o) == Flat(fs0, o))
    && (forall n :: 0 <= n < BLOCKS && fs.bfree[n] ==> fs0.bfree[n])
  }

  lemma NothingWritten(fs: FS, id: nat, off: nat)
    requires Inv(fs) && IsFile(fs, id) && off <= fs.inodes[id].size
    ensures Written(fs, fs, id, off, [])
  {
  }

  lemma PutIs(fs: FS, id: nat, pos: nat, b: byte, nbl: nat)
    requires Inv(fs) && IsFile(fs, id) && nbl < BLOCKS && FileOk(fs, id)
    requires pos <= fs.inodes[id].size && pos < MAX_FILE
    requires pos == fs.inodes[id].size && NeedsBlock(pos + 1) ==> fs.bfree[nbl]
    ensures var r, f := Put(fs, id, pos, b, nbl), Flat(fs, id);
      && Inv(r) && r.ifree == fs.ifree && r.inodes[id].path == fs.inodes[id].path && IsFile(r, id) && FileOk(r, id)
      && Flat(r, id) == (if pos < |f| then f[pos := b] else f + [b])
      && (forall o: nat :: IsFile(fs, o) && o != id ==> r.inodes[o] == fs.inodes[o] && Flat(r, o) == Flat(fs, o))
      && (forall n :: 0 <= n < BLOCKS && r.bfree[n] ==> fs.bfree[n])
  {
    hide Exclusive, ByteAt;
    Holds(fs.inodes[id].size, pos);
    var r := Poke(fs, id, pos, b);
    PokeSelf(fs, id, pos, b);
    forall o: nat | IsFile(fs, o) && o != id ensures Flat(r, o) == Flat(fs, o) { PokeOther(fs, id, pos, b, o); }
    if pos == fs.inodes[id].size {
      ExtendFlat(r, id, nbl);
      ExtendShape(r, id, nbl);
    }
  }

  /** One more byte. */
  lemma WrittenStep(fs0: FS, fs: FS, id: nat, off: nat, bs: seq<byte>, b: byte, nbl: nat)
    requires Inv(fs0) && IsFile(fs0, id) && off <= fs0.inodes[id].size && Written(fs0, fs, id, off, bs)
    requires off + |bs| < MAX_FILE && nbl < BLOCKS
    requires off + |bs| == fs.inodes[id].size && NeedsBlock(off + |bs| + 1) ==> fs.bfree[nbl]
    ensures FileOk(fs, id) && off + |bs| <= fs.inodes[id].size
    ensures Written(fs0, Put(fs, id, off + |bs|, b, nbl), id, off, bs + [b])
  {
    hide *;
    WrittenSize(fs0, fs, id, off, bs);
    var r, pos := Put(fs, id, off + |bs|, b, nbl), off + |bs|;
    PutIs(fs, id, pos, b, nbl);
    WriteAtOneMore(Flat(fs0, id), off, bs, b);
    Transfer(fs0, fs, r, id, off, bs, bs + [b]);
  }

  lemma WrittenSize(fs0: FS, fs: FS, id: nat, off: nat, bs: seq<byte>)
    requires Inv(fs0) && IsFile(fs0, id) && off <= fs0.inodes[id].size && Written(fs0, fs, id, off, bs)
    ensures IsFile(fs, id) && FileOk(fs, id) && FileOk(fs0, id)
    ensures Flat(fs, id) == WriteAt(Flat(fs0, id), off, bs)
    ensures fs.inodes[id].size == if off + |bs| > fs0.inodes[id].size then off + |bs| else fs0.inodes[id].size
  {
  }

  lemma Transfer(fs0: FS, fs: FS, r: FS, id: nat, off: nat, bs: seq<byte>, bs': seq<byte>)
    requires Inv(fs0) && IsFile(fs0, id) && off <= fs0.inodes[id].size && Written(fs0, fs, id, off, bs)
    requires Inv(r) && r.ifree == fs.ifree && r.inodes[id].path == fs.inodes[id].path
    requires IsFile(r, id) && FileOk(r, id) && FileOk(fs0, id) && Flat(r, id) == WriteAt(Flat(fs0, id), off, bs')
    requires forall o: nat :: IsFile(fs, o) && o != id ==> r.inodes[o] == fs.inodes[o] && Flat(r, o) == Flat(fs, o)
    requires forall n :: 0 <= n < BLOCKS && r.bfree[n] ==> fs.bfree[n]
    ensures Written(fs0, r, id, off, bs')
  {
  }

  // ---- Creating a file -------------------------------------------------------------------------

  /** `sfs_create` with inode `id` and block `blk`: the record keeps its old slots but the first. */
  ghost function Created(fs: FS, id: nat, path: seq<byte>, mode: nat, blk: nat): FS
    requires Shape(fs) && id < INODES && blk < BLOCKS
  {
    var nd := fs.inodes[id];
    fs.(ifree := fs.ifree[id := false], bfree := fs.bfree[blk := false],
        inodes := fs.inodes[id := nd.(id := id, size := 0, mode := mode, hardlinks := 1, path := path,
          data := nd.data[0 := blk])])
  }

  lemma CreatedExclusive(fs: FS, id: nat, path: seq<byte>, mode: nat, blk: nat)
    requires Inv(fs) && id < INODES && fs.ifree[id] && blk < BLOCKS && fs.bfree[blk]
    requires |path| == PATH && mode < 0x1_0000_0000
    ensures Shape(Created(fs, id, path, mode, blk)) && Exclusive(Created(fs, id, path, mode, blk))
  {
    var r := Created(fs, id, path, mode, blk);
    assert Shape(r);
    hide Shape;
    forall a: nat, b: nat, j: nat, k: nat | Owns(r, a, j) && Owns(r, b, k) && r.inodes[a].data[j] == r.inodes[b].data[k]
      ensures a == b && j == k
    {
      assert a != id ==> Owns(fs, a, j) && FileOk(fs, a);
      assert b != id ==> Owns(fs, b, k) && FileOk(fs, b);
    }
  }

  /** A created file is empty, owns the one block it was given, and disturbs no other file. */
  lemma CreatedIs(fs: FS, id: nat, path: seq<byte>, mode: nat, blk: nat)
    requires Inv(fs) && id < INODES && fs.ifree[id] && blk < BLOCKS && fs.bfree[blk]
    requires |path| == PATH && mode < 0x1_0000_0000
    ensures var r := Created(fs, id, path, mode, blk);
      && Inv(r) && IsFile(r, id) && Flat(r, id) == [] && r.inodes[id].path == path && r.inodes[id].mode == mode
      && r.inodes[id].data[0] == blk && r.inodes[id].data[1..] == fs.inodes[id].data[1..] && !r.bfree[blk]
      && forall o: nat :: IsFile(fs, o) ==>
        IsFile(r, o) && o != id && r.inodes[o] == fs.inodes[o] && Flat(r, o) == Flat(fs, o)
  {
    var r := Created(fs, id, path, mode, blk);
    CreatedExclusive(fs, id, path, mode, blk);
    hide Exclusive;
    forall o: nat | IsFile(r, o) ensures FileOk(r, o) { assert o != id ==> FileOk(fs, o); }
  }

  // ---- Removing a file -------------------------------------------------------------------------

  /** `sfs_unlink` of inode `id`: the marks of slots 0 to size / BLOCK_SIZE + 1 are cleared, one slot
      more than the file owns. */
  ghost function Unlinked(fs: FS, id: nat): FS
    requires Shape(fs) && id < INODES
  {
    var last := fs.inodes[id].size / BLOCK_SIZE + 1;
    fs.(ifree := fs.ifree[id := true],
        bfree := seq(BLOCKS, n requires 0 <= n < BLOCKS =>
                   fs.bfree[n] || exists i :: 0 <= i <= last && i < SLOTS && fs.inodes[id].data[i] == n))
  }

  /** The slots that `sfs_unlink` clears are in the record and name bits of the bitmap's block; else
      the code writes outside the one or the other. */
  predicate Clearable(nd: Inode)
    requires |nd.data| == SLOTS && 0 <= nd.size
  {
    && nd.size / BLOCK_SIZE + 1 < SLOTS
    && forall i :: 0 <= i <= nd.size / BLOCK_SIZE + 1 ==> 0 <= nd.data[i] < 8 * BLOCK_SIZE
  }

  /** The extra slot is in the record, names a bit of the bitmap's block, and no other file's block. */
  ghost predicate Removable(fs: FS, id: nat)
    requires Shape(fs) && id < INODES
  {
    var nd := fs.inodes[id];
    && 0 <= nd.size < MAX_FILE - BLOCK_SIZE
    && var extra := nd.data[nd.size / BLOCK_SIZE + 1];
    && 0 <= extra < 8 * BLOCK_SIZE
    && forall o: nat, j: nat :: Owns(fs, o, j) && o != id ==> fs.inodes[o].data[j] != extra
  }

  /** Of another file's blocks, removing a file frees the one in its extra slot and no other. */
  lemma UnlinkedMark(fs: FS, id: nat, o: nat, j: nat)
    requires Inv(fs) && IsFile(fs, id) && fs.inodes[id].size < MAX_FILE - BLOCK_SIZE && Owns(fs, o, j) && o != id
    ensures FileOk(fs, id) && FileOk(fs, o)
    ensures Unlinked(fs, id).bfree[fs.inodes[o].data[j]] <==>
      fs.inodes[o].data[j] == fs.inodes[id].data[fs.inodes[id].size / BLOCK_SIZE + 1]
  {
  }

  lemma UnlinkedSound(fs: FS, id: nat)
    requires Inv(fs) && IsFile(fs, id) && fs.inodes[id].size < MAX_FILE - BLOCK_SIZE
    ensures FileOk(fs, id)
    ensures Inv(Unlinked(fs, id)) <==>
      forall o: nat, j: nat :: Owns(fs, o, j) && o != id ==>
        fs.inodes[o].data[j] != fs.inodes[id].data[fs.inodes[id].size / BLOCK_SIZE + 1]
  {
    var r, nd := Unlinked(fs, id), fs.inodes[id];
    var last := nd.size / BLOCK_SIZE + 1;
    assert FileOk(fs, id) && Shape(r);
    forall o: nat | IsFile(fs, o) && o != id
      ensures FileOk(r, o) <==> forall j: nat :: j < Owned(fs.inodes[o].size) ==> fs.inodes[o].data[j] != nd.data[last]
    {
      assert FileOk(fs, o);
      forall j: nat | j < Owned(fs.inodes[o].size)
        ensures r.bfree[fs.inodes[o].data[j]] <==> fs.inodes[o].data[j] == nd.data[last]
      {
        UnlinkedMark(fs, id, o, j);
      }
    }
    assert forall o: nat, j: nat :: Owns(r, o, j) <==> Owns(fs, o, j) && o != id;
  }

  /** Removing a file stays within the record and the bitmap's block and leaves the file system sound
      exactly when the file is removable; the other files' records and all data stay in any case. */
  lemma UnlinkedIff(fs: FS, id: nat)
    requires Inv(fs) && IsFile(fs, id)
    ensures FileOk(fs, id)
    ensures Clearable(fs.inodes[id]) && Inv(Unlinked(fs, id)) <==> Removable(fs, id)
    ensures Unlinked(fs, id).data == fs.data && Unlinked(fs, id).inodes == fs.inodes
    ensures forall o: nat :: IsFile(Unlinked(fs, id), o) <==> IsFile(fs, o) && o != id
  {
    var nd := fs.inodes[id];
    var last := nd.size / BLOCK_SIZE + 1;
    assert FileOk(fs, id);
    hide Inv, Exclusive;
    if nd.size < MAX_FILE - BLOCK_SIZE {
      UnlinkedSound(fs, id);
      assert forall i :: 0 <= i < last ==> 0 <= nd.data[i] < BLOCKS;
      assert 0 <= nd.data[last] < 8 * BLOCK_SIZE <==> Clearable(nd);
    }
  }
}
