/** Whole runs of assignment3/src/sfs.c: creates, writes and removals act on the disk as they would on
    a directory that holds, for each file, its name and its bytes. */
module FileRuns {
  import opened Bytes
  import opened SfsLayout
  import opened Files
  import opened Writes
  import opened Beyond

  datatype Entry = Entry(name: seq<byte>, bytes: seq<byte>)

  /** What the file system stands for. */
  ghost function Directory(fs: FS): (m: map<nat, Entry>)
    requires Inv(fs)
  {
    map id: nat | 0 < id < INODES && IsFile(fs, id) :: Entry(CStr(fs.inodes[id].path), Flat(fs, id))
  }

  datatype Call = Make(path: seq<byte>, mode: nat)
                | Store(path: seq<byte>, off: nat, bs: seq<byte>)
                | Remove(path: seq<byte>)

  // ---- On a directory --------------------------------------------------------------------------

  /** First number from `i` on that is no file's, `INODES` if there is none. */
  function FreeNumber(m: map<nat, Entry>, i: nat): (k: nat)
    requires i <= INODES
    ensures i <= k <= INODES && (k < INODES ==> k !in m) && forall j :: i <= j < k ==> j in m
    decreases INODES - i
  {
    if i == INODES || i !in m then i else FreeNumber(m, i + 1)
  }

  /** First file from `i` on with the name, `INODES` if there is none. */
  function Named(m: map<nat, Entry>, name: seq<byte>, i: nat): (k: nat)
    requires i <= INODES
    ensures i <= k <= INODES && (k < INODES ==> k in m && m[k].name == name)
    ensures forall j :: i <= j < k ==> j !in m || m[j].name != name
    decreases INODES - i
  {
    if i == INODES || (i in m && m[i].name == name) then i else Named(m, name, i + 1)
  }

  function Do(m: map<nat, Entry>, c: Call): map<nat, Entry> {
    match c
    case Make(path, _) =>
      var k := FreeNumber(m, 1);
      m[k := Entry(CStr(path), [])]
    case Store(path, off, bs) =>
      var k := Named(m, CStr(path), 1);
      if k < INODES && off <= |m[k].bytes| then m[k := m[k].(bytes := WriteAt(m[k].bytes, off, bs))] else m
    case Remove(path) =>
      m - {Named(m, CStr(path), 1)}
  }

  function DoAll(m: map<nat, Entry>, cs: seq<Call>): map<nat, Entry> {
    if cs == [] then m else Do(DoAll(m, cs[..|cs| - 1]), cs[|cs| - 1])
  }

  // ---- On the file system ----------------------------------------------------------------------

  /** The call succeeds on `fs` and leads to `fs'`: the lowest free inode and block make a file; a
      write starts within its file and gets all its bytes written; a file is removed where it is
      removable. */
  ghost predicate Step(fs: FS, c: Call, fs': FS)
    requires Inv(fs)
  {
    match c
    case Make(path, mode) =>
      var id, blk := LowestFree(fs.ifree, 0), LowestFree(fs.bfree, 0);
      && id < INODES && blk < BLOCKS && |path| == PATH && mode < 0x1_0000_0000
      && fs' == Created(fs, id, path, mode, blk)
    case Store(path, off, bs) =>
      var id := Lookup(fs, path, 0);
      && IsFile(fs, id) && off <= fs.inodes[id].size <= MAX_FILE && bs != []
      && var w := WriteOf(fs, id, off, bs); w == Going(fs') || w == Capped(fs', |bs|)
    case Remove(path) =>
      var id := Lookup(fs, path, 0);
      IsFile(fs, id) && Removable(fs, id) && fs' == Unlinked(fs, id)
  }

  /** A file is found on the disk under the number under which it is found in the directory. */
  lemma FoundNamed(fs: FS, path: seq<byte>)
    requires Inv(fs)
    ensures var id := Lookup(fs, path, 0);
      if CStr(path) == ROOT then id == 0 else id == Named(Directory(fs), CStr(path), 1)
  {
    hide Flat, Exclusive, FileOk;
    var name, m := CStr(path), Directory(fs);
    if name != ROOT {
      var k := Named(m, name, 1);
      forall j: nat | j < k ensures fs.ifree[j] || CStr(fs.inodes[j].path) != name {
        assert j == 0 || fs.ifree[j] || (j in m && m[j].name == CStr(fs.inodes[j].path));
      }
      LookupIs(fs, path, 0, k);
    }
  }

  lemma FreeNumbered(fs: FS)
    requires Inv(fs)
    ensures LowestFree(fs.ifree, 0) == FreeNumber(Directory(fs), 1)
  {
    hide Flat, Exclusive, FileOk;
    var m := Directory(fs);
    var k := FreeNumber(m, 1);
    forall j: nat | j < k ensures !fs.ifree[j] {
      assert j == 0 || j in m;
    }
    LowestFreeIs(fs.ifree, 0, k);
  }

  lemma StepRefines(fs: FS, c: Call, fs': FS)
    requires Inv(fs) && Step(fs, c, fs')
    ensures Inv(fs') && Directory(fs') == Do(Directory(fs), c)
  {
    match c
    case Make(path, mode) => MakeRefines(fs, path, mode, fs');
    case Store(path, off, bs) => StoreRefines(fs, path, off, bs, fs');
    case Remove(path) => RemoveRefines(fs, path, fs');
  }

  lemma MakeRefines(fs: FS, path: seq<byte>, mode: nat, fs': FS)
    requires Inv(fs) && Step(fs, Make(path, mode), fs')
    ensures Inv(fs') && Directory(fs') == Do(Directory(fs), Make(path, mode))
  {
    hide Flat, Exclusive, FileOk, RootOk, LowestFree, FreeNumber;
    var id, blk := LowestFree(fs.ifree, 0), LowestFree(fs.bfree, 0);
    FreeNumbered(fs);
    CreatedIs(fs, id, path, mode, blk);
    assert forall o: nat :: IsFile(fs', o) <==> IsFile(fs, o) || o == id;
  }

  lemma StoreRefines(fs: FS, path: seq<byte>, off: nat, bs: seq<byte>, fs': FS)
    requires Inv(fs) && Step(fs, Store(path, off, bs), fs')
    ensures Inv(fs') && Directory(fs') == Do(Directory(fs), Store(path, off, bs))
  {
    hide Flat, Exclusive, FileOk, RootOk, Pour, Lookup, Named, WriteOf, WriteAt, Shape;
    var id := Lookup(fs, path, 0);
    FoundNamed(fs, path);
    NoHole(fs, id, off, bs);
    PourWithin(fs, id, off, bs);
    assert bs[..|bs|] == bs;
    WrittenSize(fs, fs', id, off, bs);
  }

  lemma RemoveRefines(fs: FS, path: seq<byte>, fs': FS)
    requires Inv(fs) && Step(fs, Remove(path), fs')
    ensures Inv(fs') && Directory(fs') == Do(Directory(fs), Remove(path))
  {
    hide Flat, Exclusive, FileOk, RootOk, Lookup, Named;
    var id := Lookup(fs, path, 0);
    FoundNamed(fs, path);
    UnlinkedIff(fs, id);
    forall o: nat | IsFile(fs', o) ensures Flat(fs', o) == Flat(fs, o) { SameFlat(fs, fs', o); }
  }

  /** A file's bytes depend only on its inode and on the data blocks. */
  lemma SameFlat(fs: FS, fs': FS, id: nat)
    requires Inv(fs) && Inv(fs') && IsFile(fs, id) && IsFile(fs', id)
    requires fs'.inodes == fs.inodes && fs'.data == fs.data
    ensures Flat(fs', id) == Flat(fs, id)
  {
  }

  /** `fss` are the states of a run of `cs`: each call succeeds on the state before it. */
  ghost predicate Trace(fss: seq<FS>, cs: seq<Call>) {
    && |fss| == |cs| + 1
    && forall i :: 0 <= i < |cs| ==> Inv(fss[i]) ==> Step(fss[i], cs[i], fss[i + 1])
  }

  /** Over every run of successful creates, writes and removals, the file system stays sound and
      stands for what the same calls make of a directory. */
  lemma {:induction false} RunRefines(fss: seq<FS>, cs: seq<Call>)
    requires Trace(fss, cs) && Inv(fss[0])
    ensures Inv(fss[|cs|]) && Directory(fss[|cs|]) == DoAll(Directory(fss[0]), cs)
  {
    hide Inv, Step, Directory, Do;
    if cs == [] {
    } else {
      var n := |cs| - 1;
      var before := fss[..n + 1];
      assert forall i :: 0 <= i <= n ==> before[i] == fss[i];
      assert Trace(before, cs[..n]);
      RunRefines(before, cs[..n]);
      StepRefines(fss[n], cs[n], fss[n + 1]);
    }
  }

  /** No call touches the magic number. */
  lemma StepMagic(fs: FS, c: Call, fs': FS)
    requires Inv(fs) && Step(fs, c, fs')
    ensures fs'.magic == fs.magic
  {
    hide Inv, WriteOf, LowestFree, Lookup, Removable;
    match c
    case Make(_, _) =>
    case Store(path, off, bs) => WriteMagic(fs, Lookup(fs, path, 0), off, bs);
    case Remove(_) =>
  }

  // ---- Two runs that go wrong ------------------------------------------------------------------

  /** A file system without files, all of whose inode records but the root's are zero. */
  function Blank(): FS {
    var nd := Inode(0, seq(PATH, _ => 0), [0, 0], 0, 0, seq(SLOTS, _ => 0), 0);
    FS(6942069, seq(INODES, i => i != 0), seq(BLOCKS, _ => true),
       seq(INODES, i => if i == 0 then nd.(path := [0x2F] + seq(PATH - 1, _ => 0), hardlinks := 2) else nd),
       seq(BLOCKS, _ => seq(BLOCK_SIZE, _ => 0)))
  }

  lemma BlankInv()
    ensures Inv(Blank())
  {
  }

  /** Two files created on a blank disk: block 0 is the first one's, and slot 1 of the second, which
      it does not own, names that block. */
  ghost function TwoFiles(a: seq<byte>, b: seq<byte>): (fs: FS)
    requires |a| == |b| == PATH
    ensures Inv(fs) && IsFile(fs, 1) && IsFile(fs, 2) && fs.inodes[1].size == fs.inodes[2].size == 0
    ensures fs.inodes[1].data[0] == 0 && fs.inodes[2].data[0] == 1 && fs.inodes[2].data[1] == 0
  {
    BlankInv();
    CreatedIs(Blank(), 1, a, 0, 0);
    CreatedIs(Created(Blank(), 1, a, 0, 0), 2, b, 0, 1);
    Created(Created(Blank(), 1, a, 0, 0), 2, b, 0, 1)
  }

  /** That is what two creates make of a blank disk. */
  lemma TwoFilesMade(a: seq<byte>, b: seq<byte>)
    requires |a| == |b| == PATH
    ensures Trace([Blank(), Created(Blank(), 1, a, 0, 0), TwoFiles(a, b)], [Make(a, 0), Make(b, 0)])
  {
    var fs0, fs1 := Blank(), Created(Blank(), 1, a, 0, 0);
    BlankInv();
    LowestFreeIs(fs0.ifree, 0, 1);
    LowestFreeIs(fs0.bfree, 0, 0);
    LowestFreeIs(fs1.ifree, 0, 2);
    LowestFreeIs(fs1.bfree, 0, 1);
    hide Inv;
    assert Step(fs0, Make(a, 0), fs1);
    assert Inv(fs1) ==> Step(fs1, Make(b, 0), TwoFiles(a, b));
  }

  /** The second file removed: the first one's block is free again. */
  lemma UnlinkCanBreak(a: seq<byte>, b: seq<byte>)
    requires |a| == |b| == PATH
    ensures var fs := Unlinked(TwoFiles(a, b), 2);
      && Clearable(TwoFiles(a, b).inodes[2]) && !Inv(fs)
      && IsFile(fs, 1) && fs.inodes[1].data[0] == 0 && fs.bfree[0]
  {
    var fs := TwoFiles(a, b);
    hide TwoFiles;
    UnlinkedIff(fs, 2);
    assert Owns(fs, 1, 0) && fs.inodes[1].data[0] == fs.inodes[2].data[1];
    assert Clearable(fs.inodes[2]);
  }

  lemma OneRound(fs: FS, id: nat, off: nat, b: byte)
    requires Shape(fs) && id < INODES && fs.inodes[id].size == 0 && off % BLOCK_SIZE == 0
    requires HasSlot(fs.inodes[id], off / BLOCK_SIZE)
    ensures Round(fs, id, off, b, 1) == Going(Resize(Poke(fs, id, off, b), id, 1))
  {
    hide LowestFree;
  }

  /** A write of one byte that does not fill a block. */
  lemma OneByte(fs: FS, id: nat, off: nat, b: byte)
    requires Shape(fs) && id < INODES && fs.inodes[id].size == 0 && off / BLOCK_SIZE <= 1 && off % BLOCK_SIZE == 0
    requires HasSlot(fs.inodes[id], off / BLOCK_SIZE)
    ensures WriteOf(fs, id, off, [b]) == Going(Resize(Poke(fs, id, off, b), id, 1))
  {
    OneRound(fs, id, off, b);
    hide Round, Poke, Shape, Resize;
    assert Fill(fs, id, 1, off / BLOCK_SIZE) == Going(fs);
    assert Pour(fs, id, off, []) == Going(fs);
    PourStep(fs, id, off, [], b);
    assert [] + [b] == [b];
  }

  /** A byte is written to the first file, then one to the second, which is empty, at offset 16384:
      the second write succeeds, leaves the second file with one byte instead of 16385, and
      overwrites the first file. */
  lemma WriteCanClobber(a: seq<byte>, b: seq<byte>)
    requires |a| == |b| == PATH
    ensures var w1 := WriteOf(TwoFiles(a, b), 1, 0, [7]);
      && w1.Going? && Inv(w1.fs) && IsFile(w1.fs, 1) && IsFile(w1.fs, 2) && FileOk(w1.fs, 1) && FileOk(w1.fs, 2)
      && Flat(w1.fs, 1) == [7]
      && var w2 := WriteOf(w1.fs, 2, 16384, [9]);
         && w2.Going? && w2.fs.inodes[2].size == 1 && Shape(w2.fs) && IsFile(w2.fs, 1) && FileOk(w2.fs, 1)
         && Flat(w2.fs, 1) == [9]
  {
    var fs := TwoFiles(a, b);
    assert FileOk(fs, 1);
    hide TwoFiles, WriteOf, Flat, Landed;
    OneByte(fs, 1, 0, 7);
    NoHole(fs, 1, 0, [7]);
    PourWithin(fs, 1, 0, [7]);
    var v := WriteOf(fs, 1, 0, [7]).fs;
    WrittenSize(fs, v, 1, 0, [7]);
    assert WriteAt(Flat(fs, 1), 0, [7]) == [7];
    assert FileOk(v, 2);
    OneByte(v, 2, 16384, 9);
    OtherFile(v, 2, 16384, [9], 1);
    Lands1(v.inodes[2]);
    assert Overwritten(v, 2, 16384, [9], 1, 0) == 9;
  }

  lemma Lands1(nd: Inode)
    requires nd.size == 0 && |nd.data| == SLOTS && nd.data[1] == 0
    ensures Landed(nd, 16384, 1, 0, 0) == 0
  {
  }

  /** On the same two empty files, 16384 bytes are written to the second at offset 1: the write succeeds
      and leaves the first file's bytes out of reach, but takes its block over. */
  lemma WriteCanTakeOver(a: seq<byte>, b: seq<byte>, bs: seq<byte>)
    requires |a| == |b| == PATH && |bs| == 16384
    ensures var fs := TwoFiles(a, b);
      && FileOk(fs, 1) && FileOk(fs, 2) && OutOfReach(fs, 2, 1, 16384, 1)
      && var w := WriteOf(fs, 2, 1, bs);
         && w.Going? && !Inv(w.fs) && w.fs.inodes[2].size == 16384
         && w.fs.inodes[2].data[1] == w.fs.inodes[1].data[0] == 0
  {
    var fs := TwoFiles(a, b);
    assert FileOk(fs, 1) && FileOk(fs, 2);
    FreeLeft(a, b);
    hide TwoFiles, WriteOf, FreeBlocks, Inv;
    BeyondIff(fs, 2, 1, bs);
    assert CanWrite(fs, 2, 1, 16384);
    SoundIff(fs, 2, 1, bs);
    assert Owns(fs, 1, 0) && !Claimable(fs, 2, 1, 16384, 1) && Stale(0, 1, 1);
    RawBeyond(fs, 2, 1, bs);
    assert SlotIs(fs, WriteOf(fs, 2, 1, bs).fs.inodes[2], 2, 1, 16384, 1);
  }

  lemma FreeLeft(a: seq<byte>, b: seq<byte>)
    requires |a| == |b| == PATH
    ensures FreeBlocks(TwoFiles(a, b).bfree) >= 1
  {
    hide FreeBlocks;
    FreeBlocksUpdate(TwoFiles(a, b).bfree, 2);
  }

  /** `fs` with `x` in slot `j` of inode `id`. */
  ghost function WithSlot(fs: FS, id: nat, j: nat, x: int): (r: FS)
    requires Shape(fs) && id < INODES && j < SLOTS && Int32(x)
    ensures Shape(r)
  {
    fs.(inodes := fs.inodes[id := fs.inodes[id].(data := fs.inodes[id].data[j := x])])
  }

  /** What a slot holds that its file does not own makes no difference. */
  lemma UnownedSlot(fs: FS, id: nat, j: nat, x: int)
    requires Inv(fs) && IsFile(fs, id) && FileOk(fs, id) && Owned(fs.inodes[id].size) <= j < SLOTS && Int32(x)
    ensures Inv(WithSlot(fs, id, j, x))
  {
    var r := WithSlot(fs, id, j, x);
    hide Shape;
    assert forall o: nat, i: nat :: Owns(r, o, i) <==> Owns(fs, o, i);
    forall o: nat | IsFile(r, o) ensures FileOk(r, o) { assert FileOk(fs, o); }
    assert Exclusive(r) by {
      hide FileOk;
      forall o: nat, i: nat | Owns(r, o, i) ensures r.inodes[o].data[i] == fs.inodes[o].data[i] {
      }
    }
  }

  /** Slots that were never set hold whatever was on the disk. If the second file's extra slot holds
      200000, removing it writes outside the bitmap's block, although no file owns such a block. */
  lemma UnlinkCanLeave(a: seq<byte>, b: seq<byte>)
    requires |a| == |b| == PATH
    ensures var fs := WithSlot(TwoFiles(a, b), 2, 1, 200000);
      Inv(fs) && IsFile(fs, 2) && fs.inodes[2].size == 0 && !Clearable(fs.inodes[2]) && !Removable(fs, 2)
  {
    var fs := TwoFiles(a, b);
    hide TwoFiles;
    assert FileOk(fs, 2);
    UnownedSlot(fs, 2, 1, 200000);
    var nd := WithSlot(fs, 2, 1, 200000).inodes[2];
    assert nd.data[1] == 200000;
  }
}
