/** What `sfs_write` of assignment3/src/sfs.c does when it starts beyond the end of the file: which
    slots it sets and which it follows as it finds them, when it succeeds, when it leaves the file
    system sound, and what becomes of the other files. */
module Beyond {
  import opened Bytes
  import opened SfsLayout
  import opened Files
  import opened Writes

  // ---- Slots -----------------------------------------------------------------------------------

  /** The first slot that such a write sets by growing: the size runs behind the cursor, and the
      block that is added when the size fills one goes behind the cursor. */
  function FirstGrown(size: nat, off: nat): nat
    requires size < off
  {
    size / BLOCK_SIZE + 2 + (off - size - 1) / BLOCK_SIZE
  }

  /** Slot `j` is set by the write by the time `i` bytes are written: by the loop that is meant to
      fill the hole, or by growing. */
  predicate SetBy(size: nat, off: nat, i: nat, j: nat)
    requires size < off
  {
    var f := FirstGrown(size, off);
    || size / BLOCK_SIZE + 1 < j <= off / BLOCK_SIZE
    || (j >= f && (j - f + size / BLOCK_SIZE + 1) * BLOCK_SIZE <= size + i)
  }

  /** Slots set by the loop that is meant to fill the hole. */
  function Fills(size: nat, off: nat): nat
    requires size < off
  {
    if off / BLOCK_SIZE > size / BLOCK_SIZE + 1 then off / BLOCK_SIZE - size / BLOCK_SIZE - 1 else 0
  }

  /** Slots set by growing by `i` bytes: one for each block the size fills. */
  function Grows(size: nat, i: nat): nat {
    (size + i) / BLOCK_SIZE - size / BLOCK_SIZE
  }

  /** Blocks taken by the time `i` bytes are written. */
  function Uses(size: nat, off: nat, i: nat): nat
    requires size < off
  {
    Fills(size, off) + Grows(size, i)
  }

  /** Slot `j` is set with the block that is taken after this many. */
  function Turn(size: nat, off: nat, j: nat): int
    requires size < off
  {
    if j <= off / BLOCK_SIZE then j - size / BLOCK_SIZE - 2 else Fills(size, off) + j - FirstGrown(size, off)
  }

  lemma TurnIs(size: nat, off: nat, i: nat, j: nat)
    requires size < off && SetBy(size, off, i, j)
    ensures 0 <= Turn(size, off, j) < Uses(size, off, i)
  {
  }

  lemma TurnsApart(size: nat, off: nat, i: nat, j: nat, k: nat)
    requires size < off && SetBy(size, off, i, j) && SetBy(size, off, i, k) && j != k
    ensures Turn(size, off, j) != Turn(size, off, k)
  {
  }

  /** Slot `j`, not owned by a file of this size, is followed as it was found. */
  predicate Stale(size: nat, off: nat, j: nat)
    requires size < off
  {
    size / BLOCK_SIZE < j < FirstGrown(size, off) && (j == size / BLOCK_SIZE + 1 || j > off / BLOCK_SIZE)
  }

  /** The slot under the cursor was set by the write, is the file's last own slot, or is stale. */
  lemma CursorSlot(size: nat, off: nat, i: nat)
    requires size < off
    ensures var j := (off + i) / BLOCK_SIZE;
      && (Stale(size, off, j) ==> !SetBy(size, off, i, j) && j > size / BLOCK_SIZE)
      && (!Stale(size, off, j) && !SetBy(size, off, i, j) ==> j == size / BLOCK_SIZE)
  {
    var j := (off + i) / BLOCK_SIZE;
    assert off / BLOCK_SIZE <= j;
    assert j >= FirstGrown(size, off) ==> SetBy(size, off, i, j);
  }

  /** Growing sets the next of the slots it sets. */
  lemma GrownSet(size: nat, off: nat, i: nat, j: nat)
    requires size < off
    ensures SetBy(size, off, i + 1, j) <==>
      SetBy(size, off, i, j) || ((size + i + 1) % BLOCK_SIZE == 0 && j == (off + i) / BLOCK_SIZE + 1)
    ensures (size + i + 1) % BLOCK_SIZE == 0 ==>
      && Uses(size, off, i + 1) == Uses(size, off, i) + 1
        && Turn(size, off, (off + i) / BLOCK_SIZE + 1) == Uses(size, off, i)
      && (off + i) / BLOCK_SIZE + 1 == FirstGrown(size, off) + Grows(size, i)
      && !SetBy(size, off, i, (off + i) / BLOCK_SIZE + 1)
    ensures (size + i + 1) % BLOCK_SIZE != 0 ==> Uses(size, off, i + 1) == Uses(size, off, i)
  {
    var f, a := FirstGrown(size, off), size / BLOCK_SIZE;
    if (size + i + 1) % BLOCK_SIZE == 0 {
      var m := (size + i + 1) / BLOCK_SIZE;
      assert off + i == m * BLOCK_SIZE + (off - size - 1);
      assert (off + i) / BLOCK_SIZE == m + (off - size - 1) / BLOCK_SIZE;
    }
  }

  /** A used block that file `id` does not own. */
  ghost predicate Foreign(fs: FS, id: nat, d: int)
    requires Shape(fs) && id < INODES && 0 <= fs.inodes[id].size < MAX_FILE
    ensures Foreign(fs, id, d) ==> 0 <= d < BLOCKS
  {
    && 0 <= d < BLOCKS && !fs.bfree[d]
    && forall j :: 0 <= j <= fs.inodes[id].size / BLOCK_SIZE ==> fs.inodes[id].data[j] != d
  }

  /** Which of the first `n` bytes of a write beyond the end lands last on byte `c` of the foreign
      block `d`: a byte lands there where its slot is stale and names `d`. -1 if none does. */
  ghost function Landed(nd: Inode, off: nat, n: nat, d: int, c: nat): (p: int)
    requires 0 <= nd.size < off && |nd.data| == SLOTS
    ensures -1 <= p < n
    ensures p >= 0 ==> Lands(nd, off, p, d, c)
    ensures forall q :: p < q < n ==> !Lands(nd, off, q, d, c)
  {
    if n == 0 then -1 else if Lands(nd, off, n - 1, d, c) then n - 1 else Landed(nd, off, n - 1, d, c)
  }

  predicate Lands(nd: Inode, off: nat, p: nat, d: int, c: nat)
    requires 0 <= nd.size < off && |nd.data| == SLOTS
  {
    var j := (off + p) / BLOCK_SIZE;
    j < SLOTS && Stale(nd.size, off, j) && nd.data[j] == d && (off + p) % BLOCK_SIZE == c
  }

  /** Tables after `i` bytes: only inode `id` is different, and how. */
  ghost predicate Tables(fs: FS, v: FS, id: nat, off: nat, i: nat)
    requires Shape(fs) && id < INODES && 0 <= fs.inodes[id].size < off
    ensures Tables(fs, v, id, off, i) ==> Shape(v) && v.inodes[id].size == fs.inodes[id].size + i
  {
    var nd := fs.inodes[id];
    && Shape(v) && v.ifree == fs.ifree && v.inodes[id] == nd.(size := nd.size + i, data := v.inodes[id].data)
    && (forall o :: 0 <= o < INODES && o != id ==> v.inodes[o] == fs.inodes[o])
    && Uses(nd.size, off, i) <= FreeBlocks(fs.bfree) && v.bfree == Take(fs.bfree, Uses(nd.size, off, i))
    && (forall j: nat :: j < SLOTS ==> SlotIs(fs, v.inodes[id], id, off, i, j))
  }

  ghost predicate SlotIs(fs: FS, nd: Inode, id: nat, off: nat, i: nat, j: nat)
    requires Shape(fs) && id < INODES && 0 <= fs.inodes[id].size < off && j < SLOTS && |nd.data| == SLOTS
  {
    nd.data[j] == SlotAfter(fs, id, off, i, j)
  }

  /** What slot `j` names after `i` bytes. */
  ghost function SlotAfter(fs: FS, id: nat, off: nat, i: nat, j: nat): int
    requires Shape(fs) && id < INODES && 0 <= fs.inodes[id].size < off && j < SLOTS
  {
    var size := fs.inodes[id].size;
    if SetBy(size, off, i, j) then
      TurnIs(size, off, i, j);
      NthFree(fs.bfree, Turn(size, off, j))
    else fs.inodes[id].data[j]
  }

  /** A slot that was set names a block that was free and is taken. */
  lemma SetSlot(fs: FS, id: nat, off: nat, i: nat, j: nat)
    requires Shape(fs) && id < INODES && 0 <= fs.inodes[id].size < off && j < SLOTS
    requires SetBy(fs.inodes[id].size, off, i, j) && Uses(fs.inodes[id].size, off, i) <= FreeBlocks(fs.bfree)
    ensures var d := SlotAfter(fs, id, off, i, j);
      0 <= d < BLOCKS && fs.bfree[d] && !Take(fs.bfree, Uses(fs.inodes[id].size, off, i))[d]
  {
    hide SetBy, Turn, Uses, NthFree, Take, FreeBlocks;
    var size := fs.inodes[id].size;
    TurnIs(size, off, i, j);
    NthFreeIs(fs.bfree, Turn(size, off, j));
    TakenStays(fs.bfree, Turn(size, off, j), Uses(size, off, i));
  }

  /** Data after the bytes `bs`: of the foreign blocks, only what landed there is different. */
  ghost predicate Cells(fs: FS, v: FS, id: nat, off: nat, bs: seq<byte>)
    requires Shape(fs) && Shape(v) && id < INODES && 0 <= fs.inodes[id].size < off && fs.inodes[id].size < MAX_FILE
  {
    forall d, c: nat :: Foreign(fs, id, d) && c < BLOCK_SIZE ==> v.data[d][c] == Cell(fs, id, off, bs, d, c)
  }

  ghost function Cell(fs: FS, id: nat, off: nat, bs: seq<byte>, d: nat, c: nat): byte
    requires Shape(fs) && id < INODES && 0 <= fs.inodes[id].size < off && d < BLOCKS && c < BLOCK_SIZE
  {
    var p := Landed(fs.inodes[id], off, |bs|, d, c);
    if p == -1 then fs.data[d][c] else bs[p]
  }

  /** `w` is `fs` with slots set, by the loop that is meant to fill the hole, up to slot `owned`. */
  ghost predicate FilledTo(fs: FS, w: FS, id: nat, owned: nat)
    ensures FilledTo(fs, w, id, owned) ==> Shape(fs) && Shape(w) && id < INODES && w.data == fs.data
  {
    && Shape(fs) && Shape(w) && id < INODES && 0 <= fs.inodes[id].size && owned > fs.inodes[id].size / BLOCK_SIZE
    && w.data == fs.data && w.ifree == fs.ifree && w.inodes[id] == fs.inodes[id].(data := w.inodes[id].data)
    && (forall o :: 0 <= o < INODES && o != id ==> w.inodes[o] == fs.inodes[o])
    && var a := fs.inodes[id].size / BLOCK_SIZE;
    && owned - a - 1 <= FreeBlocks(fs.bfree) && w.bfree == Take(fs.bfree, owned - a - 1)
    && forall j: nat :: j < SLOTS ==>
         w.inodes[id].data[j] == if a + 1 < j <= owned then NthFree(fs.bfree, j - a - 2) else fs.inodes[id].data[j]
  }

  lemma FilledRoom(fs: FS, w: FS, id: nat, owned: nat)
    requires FilledTo(fs, w, id, owned)
    ensures LowestFree(w.bfree, 0) < BLOCKS <==> owned - fs.inodes[id].size / BLOCK_SIZE - 1 < FreeBlocks(fs.bfree)
  {
    hide LowestFree, FreeBlocks, Take, NthFree;
    TakeCount(fs.bfree, owned - fs.inodes[id].size / BLOCK_SIZE - 1);
    FreeOne(w.bfree);
  }

  lemma FilledStep(fs: FS, w: FS, id: nat, owned: nat)
    requires FilledTo(fs, w, id, owned) && owned + 1 < SLOTS && LowestFree(w.bfree, 0) < BLOCKS
    ensures FilledTo(fs, Attach(w, id, owned + 1, LowestFree(w.bfree, 0)), id, owned + 1)
  {
    FilledRoom(fs, w, id, owned);
    hide LowestFree, FreeBlocks;
    var k, c := LowestFree(w.bfree, 0), owned - fs.inodes[id].size / BLOCK_SIZE - 1;
    assert Take(fs.bfree, c + 1) == w.bfree[k := false];
    assert NthFree(fs.bfree, c) == k;
  }

  lemma FilledTables(fs: FS, w: FS, id: nat, off: nat, owned: nat)
    requires FilledTo(fs, w, id, owned) && fs.inodes[id].size < off
    requires owned == if off / BLOCK_SIZE > fs.inodes[id].size / BLOCK_SIZE + 1 then off / BLOCK_SIZE
                      else fs.inodes[id].size / BLOCK_SIZE + 1
    ensures Tables(fs, w, id, off, 0)
  {
    hide LowestFree, FreeBlocks, Take, NthFree;
    var nd := w.inodes[id];
    forall j: nat | j < SLOTS ensures SlotIs(fs, nd, id, off, 0, j) {
    }
  }

  lemma NothingFilled(fs: FS, id: nat)
    requires Shape(fs) && id < INODES && 0 <= fs.inodes[id].size
    ensures FilledTo(fs, fs, id, fs.inodes[id].size / BLOCK_SIZE + 1)
  {
  }

  /** The loop that is meant to fill the hole succeeds if and only if the blocks and the slots suffice. */
  lemma {:induction false} FillTables(fs: FS, w: FS, id: nat, off: nat, owned: nat)
    requires FilledTo(fs, w, id, owned) && fs.inodes[id].size < off
    requires owned == fs.inodes[id].size / BLOCK_SIZE + 1 || owned <= off / BLOCK_SIZE
    ensures var r := Fill(w, id, owned, off / BLOCK_SIZE);
      && (r.Going? ==> r.fs.data == fs.data && Tables(fs, r.fs, id, off, 0))
      && (r.Going? <==> off / BLOCK_SIZE <= owned
                        || (Fills(fs.inodes[id].size, off) <= FreeBlocks(fs.bfree) && off / BLOCK_SIZE < SLOTS))
    decreases off / BLOCK_SIZE - owned
  {
    var k := LowestFree(w.bfree, 0);
    FilledRoom(fs, w, id, owned);
    if off / BLOCK_SIZE <= owned {
      FilledTables(fs, w, id, off, owned);
    } else if k < BLOCKS && owned + 1 < SLOTS {
      FilledStep(fs, w, id, owned);
      hide LowestFree, FreeBlocks, FilledTo, Tables, Shape;
      FillTables(fs, Attach(w, id, owned + 1, k), id, off, owned + 1);
    } else {
      hide LowestFree, FreeBlocks, Tables;
    }
  }

  /** A round beyond the end always grows, and never reaches the maximal size. */
  lemma RoundBeyond(fs: FS, v: FS, id: nat, off: nat, i: nat, b: byte)
    requires Shape(fs) && id < INODES && 0 <= fs.inodes[id].size < off && Tables(fs, v, id, off, i)
      && Ready(v, id, off + i)
    ensures var r, pos, k := Round(v, id, off + i, b, i + 1), off + i, LowestFree(v.bfree, 0);
      && !r.Capped? && pos < MAX_FILE
      && (r.Going? ==>
            var u := Resize(Poke(v, id, pos, b), id, v.inodes[id].size + 1);
            if (v.inodes[id].size + 1) % BLOCK_SIZE != 0 then r.fs == u
            else k < BLOCKS && pos / BLOCK_SIZE + 1 < SLOTS && r.fs == Attach(u, id, pos / BLOCK_SIZE + 1, k))
  {
    hide LowestFree;
    ReadyBound(v, id, off + i);
  }

  lemma PlainGrow(fs: FS, v: FS, id: nat, off: nat, i: nat, b: byte)
    requires Shape(fs) && id < INODES && 0 <= fs.inodes[id].size < off && Tables(fs, v, id, off, i)
    requires Ready(v, id, off + i) && v.inodes[id].size < MAX_FILE && (v.inodes[id].size + 1) % BLOCK_SIZE != 0
    ensures Tables(fs, Resize(Poke(v, id, off + i, b), id, v.inodes[id].size + 1), id, off, i + 1)
  {
    hide LowestFree, SetBy, FreeBlocks, Take, NthFree, Uses, Turn;
    var u, i' := Resize(Poke(v, id, off + i, b), id, v.inodes[id].size + 1), i + 1;
    GrownSet(fs.inodes[id].size, off, i, 0);
    var nd := u.inodes[id];
    forall j: nat | j < SLOTS ensures SlotIs(fs, nd, id, off, i', j) {
      assert SlotIs(fs, v.inodes[id], id, off, i, j);
      GrownSet(fs.inodes[id].size, off, i, j);
    }
  }

  lemma BlockGrow(fs: FS, v: FS, id: nat, off: nat, i: nat, b: byte)
    requires Shape(fs) && id < INODES && 0 <= fs.inodes[id].size < off && Tables(fs, v, id, off, i)
    requires Ready(v, id, off + i) && v.inodes[id].size < MAX_FILE && (v.inodes[id].size + 1) % BLOCK_SIZE == 0
    requires LowestFree(v.bfree, 0) < BLOCKS && (off + i) / BLOCK_SIZE + 1 < SLOTS
    ensures var u := Resize(Poke(v, id, off + i, b), id, v.inodes[id].size + 1);
      Tables(fs, Attach(u, id, (off + i) / BLOCK_SIZE + 1, LowestFree(v.bfree, 0)), id, off, i + 1)
  {
    var size, k, i', slot := fs.inodes[id].size, LowestFree(v.bfree, 0), i + 1, (off + i) / BLOCK_SIZE + 1;
    assert NthFree(fs.bfree, Uses(size, off, i)) == k;
    hide LowestFree, SetBy, FreeBlocks, Take, NthFree, Uses, Turn;
    BeyondRoom(fs, v, id, off, i);
    GrownSet(size, off, i, 0);
    TakeNext(fs.bfree, Uses(size, off, i));
    var u := Attach(Resize(Poke(v, id, off + i, b), id, v.inodes[id].size + 1), id, slot, k);
    var nd := u.inodes[id];
    forall j: nat | j < SLOTS ensures SlotIs(fs, nd, id, off, i', j) {
      assert SlotIs(fs, v.inodes[id], id, off, i, j);
      GrownSet(size, off, i, j);
    }
  }

  lemma BeyondRoom(fs: FS, v: FS, id: nat, off: nat, i: nat)
    requires Shape(fs) && id < INODES && 0 <= fs.inodes[id].size < off && Tables(fs, v, id, off, i)
    ensures LowestFree(v.bfree, 0) < BLOCKS <==> Uses(fs.inodes[id].size, off, i) < FreeBlocks(fs.bfree)
  {
    hide LowestFree, FreeBlocks, Take, SlotIs;
    TakeCount(fs.bfree, Uses(fs.inodes[id].size, off, i));
    FreeOne(v.bfree);
  }

  lemma TablesRound(fs: FS, v: FS, id: nat, off: nat, i: nat, b: byte)
    requires Shape(fs) && id < INODES && 0 <= fs.inodes[id].size < off && Tables(fs, v, id, off, i)
      && Ready(v, id, off + i)
    ensures var r := Round(v, id, off + i, b, i + 1);
      r.Going? ==> Tables(fs, r.fs, id, off, i + 1)
  {
    RoundBeyond(fs, v, id, off, i, b);
    ReadyBound(v, id, off + i);
    assert v.inodes[id].size < MAX_FILE;
    hide LowestFree, Round, Ready, Tables, Shape;
    if Round(v, id, off + i, b, i + 1).Going? {
      if (v.inodes[id].size + 1) % BLOCK_SIZE != 0 {
        PlainGrow(fs, v, id, off, i, b);
      } else {
        BlockGrow(fs, v, id, off, i, b);
      }
    }
  }

  lemma CellStep(fs: FS, id: nat, off: nat, bs: seq<byte>, b: byte, d: nat, c: nat)
    requires Shape(fs) && id < INODES && 0 <= fs.inodes[id].size < off && d < BLOCKS && c < BLOCK_SIZE
    ensures Cell(fs, id, off, bs + [b], d, c)
         == if Lands(fs.inodes[id], off, |bs|, d, c) then b else Cell(fs, id, off, bs, d, c)
  {
    hide Lands;
  }

  /** The byte goes to a foreign block exactly where it lands. */
  lemma PokeLands(fs: FS, v: FS, id: nat, off: nat, i: nat, d: nat)
    requires Shape(fs) && id < INODES && 0 <= fs.inodes[id].size < off && fs.inodes[id].size < MAX_FILE
    requires Tables(fs, v, id, off, i) && Ready(v, id, off + i) && Foreign(fs, id, d)
    ensures var j := (off + i) / BLOCK_SIZE;
      j < SLOTS && (v.inodes[id].data[j] == d <==> Stale(fs.inodes[id].size, off, j) && fs.inodes[id].data[j] == d)
  {
    hide SetBy, Stale;
    ReadyBound(v, id, off + i);
    var j := (off + i) / BLOCK_SIZE;
    CursorSlot(fs.inodes[id].size, off, i);
    assert SlotIs(fs, v.inodes[id], id, off, i, j);
  }

  lemma CellsRound(fs: FS, v: FS, id: nat, off: nat, bs: seq<byte>, b: byte)
    requires Shape(fs) && id < INODES && 0 <= fs.inodes[id].size < off && fs.inodes[id].size < MAX_FILE
    requires Tables(fs, v, id, off, |bs|) && Cells(fs, v, id, off, bs) && Ready(v, id, off + |bs|)
    ensures var r := Round(v, id, off + |bs|, b, |bs| + 1);
      r.Going? ==> Shape(r.fs) && Cells(fs, r.fs, id, off, bs + [b])
  {
    var i := |bs|;
    RoundBeyond(fs, v, id, off, i, b);
    var r := Round(v, id, off + i, b, i + 1);
    hide LowestFree, Round, Ready, SetBy, Stale, Cell, Landed, Tables, Foreign;
    if r.Going? {
      var data := r.fs.data;
      assert data == Poke(v, id, off + i, b).data;
      forall d, c: nat | Foreign(fs, id, d) && c < BLOCK_SIZE ensures data[d][c] == Cell(fs, id, off, bs + [b], d, c) {
        assert v.data[d][c] == Cell(fs, id, off, bs, d, c);
        CellStep(fs, id, off, bs, b, d, c);
        PokeLands(fs, v, id, off, i, d);
      }
    }
  }

  lemma {:induction false} PourBeyond(fs: FS, w: FS, id: nat, off: nat, bs: seq<byte>)
    requires Shape(fs) && id < INODES && 0 <= fs.inodes[id].size < off && fs.inodes[id].size < MAX_FILE
    requires Tables(fs, w, id, off, 0) && w.data == fs.data
    ensures var r := Pour(w, id, off, bs);
      && !r.Capped? && (r.Going? ==> Tables(fs, r.fs, id, off, |bs|) && Cells(fs, r.fs, id, off, bs))
    decreases |bs|
  {
    hide Shape, Round, Ready, SlotIs;
    if bs == [] {
    } else {
      var bs', b := bs[..|bs| - 1], bs[|bs| - 1];
      var r := Pour(w, id, off, bs');
      assert bs == bs' + [b];
      PourBeyond(fs, w, id, off, bs');
      PourStep(w, id, off, bs', b);
      hide Tables, Cells, Pour;
      if r.Going? {
        RoundBeyond(fs, r.fs, id, off, |bs'|, b);
        TablesRound(fs, r.fs, id, off, |bs'|, b);
        CellsRound(fs, r.fs, id, off, bs', b);
      }
    }
  }

  /** A write beyond the end that succeeds makes the file as many bytes longer as were written, which
      is too short by the gap. Every other file keeps its inode; its byte `k` becomes the last byte
      that landed on it, if any did. */
  lemma WriteBeyond(fs: FS, id: nat, off: nat, bs: seq<byte>)
    requires Inv(fs) && IsFile(fs, id) && fs.inodes[id].size < off
    ensures FileOk(fs, id) && !WriteOf(fs, id, off, bs).Capped?
    ensures WriteOf(fs, id, off, bs).Going? ==>
      var v, nd := WriteOf(fs, id, off, bs).fs, fs.inodes[id];
      && Shape(v) && v.ifree == fs.ifree && v.inodes[id].size == nd.size + |bs|
      && forall o: nat :: IsFile(fs, o) && o != id ==>
           && v.inodes[o] == fs.inodes[o] && FileOk(v, o) && FileOk(fs, o)
           && forall k: nat :: k < fs.inodes[o].size ==> Flat(v, o)[k] == Overwritten(fs, id, off, bs, o, k)
  {
    assert FileOk(fs, id);
    hide WriteOf, Flat, Cells, SlotIs, Exclusive;
    RawBeyond(fs, id, off, bs);
    var r := WriteOf(fs, id, off, bs);
    if r.Going? {
      forall o: nat | IsFile(fs, o) && o != id
        ensures FileOk(r.fs, o) && FileOk(fs, o)
        ensures forall k: nat :: k < fs.inodes[o].size ==> Flat(r.fs, o)[k] == Overwritten(fs, id, off, bs, o, k)
      {
        assert FileOk(fs, o) && FileOk(r.fs, o);
        forall k: nat | k < fs.inodes[o].size ensures Flat(r.fs, o)[k] == Overwritten(fs, id, off, bs, o, k) {
          OtherByte(fs, r.fs, id, off, bs, o, k);
        }
      }
    }
  }

  /** No slot, no byte written. */
  lemma {:induction false} NoStart(fs: FS, id: nat, off: nat, bs: seq<byte>)
    requires Shape(fs) && id < INODES && 0 <= fs.inodes[id].size <= MAX_FILE && off >= MAX_FILE
    ensures Pour(fs, id, off, bs) == Lost
    decreases |bs|
  {
    if bs == [] {
    } else {
      NoStart(fs, id, off, bs[..|bs| - 1]);
    }
  }

  lemma RawBeyond(fs: FS, id: nat, off: nat, bs: seq<byte>)
    requires Shape(fs) && id < INODES && 0 <= fs.inodes[id].size < off && fs.inodes[id].size <= MAX_FILE
    ensures var r := WriteOf(fs, id, off, bs);
      && !r.Capped?
      && (r.Going? ==> fs.inodes[id].size < MAX_FILE && Tables(fs, r.fs, id, off, |bs|) && Cells(fs, r.fs, id, off, bs))
  {
    hide Tables, Cells, Pour, Shape;
    var w := Fill(fs, id, fs.inodes[id].size / BLOCK_SIZE + 1, off / BLOCK_SIZE);
    if w.Going? {
      if fs.inodes[id].size == MAX_FILE {
        NoStart(w.fs, id, off, bs);
      } else {
        NothingFilled(fs, id);
        FillTables(fs, fs, id, off, fs.inodes[id].size / BLOCK_SIZE + 1);
        PourBeyond(fs, w.fs, id, off, bs);
      }
    }
  }

  lemma OtherByte(fs: FS, v: FS, id: nat, off: nat, bs: seq<byte>, o: nat, k: nat)
    requires Inv(fs) && IsFile(fs, id) && FileOk(fs, id) && fs.inodes[id].size < off && fs.inodes[id].size < MAX_FILE
    requires Tables(fs, v, id, off, |bs|) && Cells(fs, v, id, off, bs)
    requires IsFile(fs, o) && o != id && FileOk(fs, o) && IsFile(v, o) && FileOk(v, o) && k < fs.inodes[o].size
    ensures Flat(v, o)[k] == Overwritten(fs, id, off, bs, o, k)
  {
    hide Landed, SlotIs;
    Holds(fs.inodes[o].size, k);
    var d := fs.inodes[o].data[k / BLOCK_SIZE];
    forall j: nat | j <= fs.inodes[id].size / BLOCK_SIZE ensures fs.inodes[id].data[j] != d {
      Files.Apart(fs, o, k / BLOCK_SIZE, id, j);
    }
    assert Foreign(fs, id, d);
  }

  /** Byte `k` of file `o` after a write of `bs` at `off`, beyond the end of file `id`. */
  ghost function Overwritten(fs: FS, id: nat, off: nat, bs: seq<byte>, o: nat, k: nat): byte
    requires Inv(fs) && IsFile(fs, id) && IsFile(fs, o) && FileOk(fs, id) && FileOk(fs, o)
    requires fs.inodes[id].size < off && k < fs.inodes[o].size
  {
    Holds(fs.inodes[o].size, k);
    var p := Landed(fs.inodes[id], off, |bs|, fs.inodes[o].data[k / BLOCK_SIZE], k % BLOCK_SIZE);
    if p == -1 then Flat(fs, o)[k] else bs[p]
  }

  /** The two differ in data blocks at most. */
  predicate Alike(a: FS, b: FS) {
    a == b.(data := a.data)
  }

  lemma RoundAlike(fs: FS, fs': FS, id: nat, pos: nat, b: byte, b': byte, n: nat)
    requires Ready(fs, id, pos) && Ready(fs', id, pos) && Alike(fs, fs')
    ensures var r, r' := Round(fs, id, pos, b, n), Round(fs', id, pos, b', n);
      (r.Going? <==> r'.Going?) && (r.Going? ==> Alike(r.fs, r'.fs))
  {
    hide LowestFree;
  }

  /** Whether a write succeeds, and what it does to the tables, does not depend on the bytes. */
  lemma {:induction false} PourAlike(fs: FS, id: nat, off: nat, bs: seq<byte>, bs': seq<byte>)
    requires Shape(fs) && id < INODES && 0 <= fs.inodes[id].size <= MAX_FILE && |bs| == |bs'|
    ensures var r, r' := Pour(fs, id, off, bs), Pour(fs, id, off, bs');
      (r.Going? <==> r'.Going?) && (r.Going? ==> Alike(r.fs, r'.fs))
    decreases |bs|
  {
    hide Round, Shape, Ready;
    if bs == [] {
    } else {
      var m := |bs| - 1;
      PourAlike(fs, id, off, bs[..m], bs'[..m]);
      PourStep(fs, id, off, bs[..m], bs[m]);
      PourStep(fs, id, off, bs'[..m], bs'[m]);
      assert bs == bs[..m] + [bs[m]] && bs' == bs'[..m] + [bs'[m]];
      hide Pour;
      var r, r' := Pour(fs, id, off, bs[..m]), Pour(fs, id, off, bs'[..m]);
      if r.Going? { RoundAlike(r.fs, r'.fs, id, off + m, bs[m], bs'[m], m + 1); }
    }
  }

  /** The write succeeded and file `o` is as it was in `fs`. */
  ghost predicate Spares(fs: FS, r: Outcome, o: nat)
    requires Inv(fs) && IsFile(fs, o) && FileOk(fs, o)
  {
    r.Going? && Shape(r.fs) && IsFile(r.fs, o) && FileOk(r.fs, o) && Flat(r.fs, o) == Flat(fs, o)
  }

  /** No stale slot that a write of `n` bytes at `off` follows leads to a byte of file `o`. */
  ghost predicate OutOfReach(fs: FS, id: nat, off: nat, n: nat, o: nat)
    requires Inv(fs) && IsFile(fs, id) && IsFile(fs, o) && FileOk(fs, id) && FileOk(fs, o)
    requires fs.inodes[id].size < off
  {
    forall p: nat, k: nat :: p < n && k < fs.inodes[o].size ==> !Reaches(fs, id, off, p, o, k)
  }

  ghost predicate Reaches(fs: FS, id: nat, off: nat, p: nat, o: nat, k: nat)
    requires Inv(fs) && IsFile(fs, id) && IsFile(fs, o) && FileOk(fs, id) && FileOk(fs, o)
    requires fs.inodes[id].size < off && k < fs.inodes[o].size
  {
    Holds(fs.inodes[o].size, k);
    Lands(fs.inodes[id], off, p, fs.inodes[o].data[k / BLOCK_SIZE], k % BLOCK_SIZE)
  }

  /** A write beyond the end of file `id` leaves another file alone, whatever the bytes, if and only
      if no stale slot it follows leads to a byte of that file. */
  lemma SparesIff(fs: FS, id: nat, off: nat, bs: seq<byte>, o: nat)
    requires Inv(fs) && IsFile(fs, id) && IsFile(fs, o) && o != id && FileOk(fs, id) && FileOk(fs, o)
    requires fs.inodes[id].size < off && WriteOf(fs, id, off, bs).Going?
    ensures (forall bs': seq<byte> :: |bs'| == |bs| ==> Spares(fs, WriteOf(fs, id, off, bs'), o))
       <==> OutOfReach(fs, id, off, |bs|, o)
  {
    assert 0 <= fs.inodes[id].size <= MAX_FILE;
    hide WriteOf, Inv, FileOk, OutOfReach, Spares;
    forall bs': seq<byte> | |bs'| == |bs| && OutOfReach(fs, id, off, |bs|, o)
      ensures Spares(fs, WriteOf(fs, id, off, bs'), o)
    {
      SparedThen(fs, id, off, bs, bs', o);
    }
    if !OutOfReach(fs, id, off, |bs|, o) {
      var bs' := HitThen(fs, id, off, bs, o);
    }
  }

  lemma SparedThen(fs: FS, id: nat, off: nat, bs: seq<byte>, bs': seq<byte>, o: nat)
    requires Inv(fs) && IsFile(fs, id) && IsFile(fs, o) && o != id && FileOk(fs, id) && FileOk(fs, o)
    requires fs.inodes[id].size < off && WriteOf(fs, id, off, bs).Going?
    requires |bs'| == |bs| && OutOfReach(fs, id, off, |bs|, o)
    ensures Spares(fs, WriteOf(fs, id, off, bs'), o)
  {
    assert 0 <= fs.inodes[id].size <= MAX_FILE;
    hide WriteOf, Inv, FileOk, Flat, Lands, Landed, Overwritten, Reaches;
    WriteAlike(fs, id, off, bs, bs');
    OtherFile(fs, id, off, bs', o);
    var f, f' := Flat(fs, o), Flat(WriteOf(fs, id, off, bs').fs, o);
    forall k: nat | k < fs.inodes[o].size ensures f'[k] == f[k] {
      Unreached(fs, id, off, bs', o, k);
    }
  }

  lemma HitThen(fs: FS, id: nat, off: nat, bs: seq<byte>, o: nat) returns (bs': seq<byte>)
    requires Inv(fs) && IsFile(fs, id) && IsFile(fs, o) && o != id && FileOk(fs, id) && FileOk(fs, o)
    requires fs.inodes[id].size < off && WriteOf(fs, id, off, bs).Going? && !OutOfReach(fs, id, off, |bs|, o)
    ensures |bs'| == |bs| && !Spares(fs, WriteOf(fs, id, off, bs'), o)
  {
    assert 0 <= fs.inodes[id].size <= MAX_FILE;
    hide WriteOf, Inv, FileOk, Flat, Lands, Landed, Overwritten, Reaches;
    var p: nat, k: nat :| p < |bs| && k < fs.inodes[o].size && Reaches(fs, id, off, p, o, k);
    var c: byte := if Flat(fs, o)[k] == 0 then 1 else 0;
    bs' := seq(|bs|, _ => c);
    WriteAlike(fs, id, off, bs, bs');
    OtherFile(fs, id, off, bs', o);
    Reached(fs, id, off, bs', o, k, p);
    assert Flat(WriteOf(fs, id, off, bs').fs, o)[k] == c;
  }

  lemma WriteAlike(fs: FS, id: nat, off: nat, bs: seq<byte>, bs': seq<byte>)
    requires Shape(fs) && id < INODES && 0 <= fs.inodes[id].size <= MAX_FILE && |bs| == |bs'|
    ensures WriteOf(fs, id, off, bs).Going? <==> WriteOf(fs, id, off, bs').Going?
  {
    hide Pour, Fill, Shape;
    var w := Fill(fs, id, fs.inodes[id].size / BLOCK_SIZE + 1, off / BLOCK_SIZE);
    if w.Going? { PourAlike(w.fs, id, off, bs, bs'); }
  }

  lemma OtherFile(fs: FS, id: nat, off: nat, bs: seq<byte>, o: nat)
    requires Inv(fs) && IsFile(fs, id) && IsFile(fs, o) && o != id && FileOk(fs, id) && FileOk(fs, o)
    requires fs.inodes[id].size < off && WriteOf(fs, id, off, bs).Going?
    ensures var v := WriteOf(fs, id, off, bs).fs;
      && Shape(v) && IsFile(v, o) && FileOk(v, o) && |Flat(v, o)| == |Flat(fs, o)| == fs.inodes[o].size
      && forall k: nat :: k < fs.inodes[o].size ==> Flat(v, o)[k] == Overwritten(fs, id, off, bs, o, k)
  {
    hide WriteOf, Inv, FileOk, Overwritten;
    WriteBeyond(fs, id, off, bs);
  }

  lemma Unreached(fs: FS, id: nat, off: nat, bs: seq<byte>, o: nat, k: nat)
    requires Inv(fs) && IsFile(fs, id) && IsFile(fs, o) && FileOk(fs, id) && FileOk(fs, o)
    requires fs.inodes[id].size < off && k < fs.inodes[o].size
    requires forall p: nat :: p < |bs| ==> !Reaches(fs, id, off, p, o, k)
    ensures Overwritten(fs, id, off, bs, o, k) == Flat(fs, o)[k]
  {
    hide Lands;
    Holds(fs.inodes[o].size, k);
    var q := Landed(fs.inodes[id], off, |bs|, fs.inodes[o].data[k / BLOCK_SIZE], k % BLOCK_SIZE);
    assert q < 0 || Reaches(fs, id, off, q, o, k);
  }

  lemma Reached(fs: FS, id: nat, off: nat, bs: seq<byte>, o: nat, k: nat, p: nat)
    requires Inv(fs) && IsFile(fs, id) && IsFile(fs, o) && FileOk(fs, id) && FileOk(fs, o)
    requires fs.inodes[id].size < off && k < fs.inodes[o].size && p < |bs| && Reaches(fs, id, off, p, o, k)
    ensures exists q :: 0 <= q < |bs| && Overwritten(fs, id, off, bs, o, k) == bs[q]
  {
    hide Lands;
    Holds(fs.inodes[o].size, k);
    var q := Landed(fs.inodes[id], off, |bs|, fs.inodes[o].data[k / BLOCK_SIZE], k % BLOCK_SIZE);
    assert Overwritten(fs, id, off, bs, o, k) == bs[q];
  }

  // ---- When a write beyond the end succeeds ----------------------------------------------------

  /** Enough blocks are free, the slots it sets and the one behind the last byte exist, and the stale
      slots it follows name data blocks. */
  ghost predicate CanWrite(fs: FS, id: nat, off: nat, n: nat)
    requires Shape(fs) && id < INODES && 0 <= fs.inodes[id].size < off
  {
    var nd := fs.inodes[id];
    && Uses(nd.size, off, n) <= FreeBlocks(fs.bfree) && off + n < MAX_FILE
    && (Grows(nd.size, n) > 0 ==> FirstGrown(nd.size, off) + Grows(nd.size, n) - 1 < SLOTS)
    && StaleOk(nd, off, (off + n) / BLOCK_SIZE)
  }

  predicate StaleOk(nd: Inode, off: nat, last: nat)
    requires 0 <= nd.size < off
  {
    forall j: nat :: off / BLOCK_SIZE <= j <= last && Stale(nd.size, off, j) ==> HasSlot(nd, j)
  }

  /** A round is a step of growth, and then the next slot has to be there. */
  lemma RoundPlain(v: FS, id: nat, pos: nat, b: byte, n: nat)
    requires Ready(v, id, pos) && v.inodes[id].size < pos < MAX_FILE && (v.inodes[id].size + 1) % BLOCK_SIZE != 0
    ensures var u := Resize(Poke(v, id, pos, b), id, v.inodes[id].size + 1);
      Round(v, id, pos, b, n).Going? <==>
        ((pos + 1) % BLOCK_SIZE == 0 ==> HasSlot(u.inodes[id], (pos + 1) / BLOCK_SIZE))
  {
  }

  lemma RoundBlock(v: FS, id: nat, pos: nat, b: byte, n: nat)
    requires Ready(v, id, pos) && v.inodes[id].size < pos < MAX_FILE && (v.inodes[id].size + 1) % BLOCK_SIZE == 0
    ensures var r, k := Round(v, id, pos, b, n), LowestFree(v.bfree, 0);
      var u := Resize(Poke(v, id, pos, b), id, v.inodes[id].size + 1);
      if k >= BLOCKS || pos / BLOCK_SIZE + 1 >= SLOTS then !r.Going?
      else r.Going? <==>
        ((pos + 1) % BLOCK_SIZE == 0 ==>
           HasSlot(Attach(u, id, pos / BLOCK_SIZE + 1, k).inodes[id], (pos + 1) / BLOCK_SIZE))
  {
    hide LowestFree;
  }

  /** The slot the cursor comes to names a data block if and only if it exists and is not stale, or is
      stale and did so before. */
  lemma NextSlot(fs: FS, u: FS, id: nat, off: nat, i: nat)
    requires Shape(fs) && id < INODES && 0 <= fs.inodes[id].size < off && Tables(fs, u, id, off, i)
    requires (off + i) / BLOCK_SIZE > off / BLOCK_SIZE
    ensures var j, nd := (off + i) / BLOCK_SIZE, fs.inodes[id];
      HasSlot(u.inodes[id], j) <==> j < SLOTS && (Stale(nd.size, off, j) ==> HasSlot(nd, j))
  {
    var j, size := (off + i) / BLOCK_SIZE, fs.inodes[id].size;
    CursorSlot(size, off, i);
    hide SetBy, Stale, Take, FreeBlocks, NthFree, Uses;
    if j < SLOTS {
      assert SlotIs(fs, u.inodes[id], id, off, i, j);
      if SetBy(size, off, i, j) { SetSlot(fs, id, off, i, j); }
    }
  }

  /** What one more byte asks for. */
  lemma CanStep(fs: FS, id: nat, off: nat, i: nat)
    requires Shape(fs) && id < INODES && 0 <= fs.inodes[id].size < off && CanWrite(fs, id, off, i)
    ensures var nd := fs.inodes[id];
      CanWrite(fs, id, off, i + 1) <==>
        && ((nd.size + i + 1) % BLOCK_SIZE == 0 ==>
              Uses(nd.size, off, i) < FreeBlocks(fs.bfree) && (off + i) / BLOCK_SIZE + 1 < SLOTS)
        && NextOk(fs, id, off, i)
  {
    hide FreeBlocks, Stale, HasSlot, StaleOk;
    StaleStep(fs.inodes[id], off, i);
    GrownSet(fs.inodes[id].size, off, i, 0);
  }

  lemma RoundIff(fs: FS, v: FS, id: nat, off: nat, i: nat, b: byte)
    requires Shape(fs) && id < INODES && 0 <= fs.inodes[id].size < off && Tables(fs, v, id, off, i)
    requires Ready(v, id, off + i) && CanWrite(fs, id, off, i)
    ensures Round(v, id, off + i, b, i + 1).Going? <==> CanWrite(fs, id, off, i + 1)
  {
    ReadyBound(v, id, off + i);
    hide *;
    CanStep(fs, id, off, i);
    if (fs.inodes[id].size + i + 1) % BLOCK_SIZE == 0 {
      RoundIffBlock(fs, v, id, off, i, b);
    } else {
      RoundIffPlain(fs, v, id, off, i, b);
    }
  }

  /** What the slot that the cursor may come to has to be. */
  ghost predicate NextOk(fs: FS, id: nat, off: nat, i: nat)
    requires Shape(fs) && id < INODES && 0 <= fs.inodes[id].size < off
  {
    var nd, j := fs.inodes[id], (off + i + 1) / BLOCK_SIZE;
    (off + i + 1) % BLOCK_SIZE == 0 ==> j < SLOTS && (Stale(nd.size, off, j) ==> HasSlot(nd, j))
  }

  lemma RoundIffPlain(fs: FS, v: FS, id: nat, off: nat, i: nat, b: byte)
    requires Shape(fs) && id < INODES && 0 <= fs.inodes[id].size < off && Tables(fs, v, id, off, i)
    requires Ready(v, id, off + i) && off + i < MAX_FILE && (fs.inodes[id].size + i + 1) % BLOCK_SIZE != 0
    ensures Round(v, id, off + i, b, i + 1).Going? <==> NextOk(fs, id, off, i)
  {
    hide Round, Tables, Ready, Shape, Stale, HasSlot, Poke, Resize;
    ReadySlot(v, id, off + i);
    RoundPlain(v, id, off + i, b, i + 1);
    PlainGrow(fs, v, id, off, i, b);
    if (off + i + 1) % BLOCK_SIZE == 0 {
      NextSlot(fs, Resize(Poke(v, id, off + i, b), id, v.inodes[id].size + 1), id, off, i + 1);
    }
  }

  lemma RoundIffBlock(fs: FS, v: FS, id: nat, off: nat, i: nat, b: byte)
    requires Shape(fs) && id < INODES && 0 <= fs.inodes[id].size < off && Tables(fs, v, id, off, i)
    requires Ready(v, id, off + i) && off + i < MAX_FILE && (fs.inodes[id].size + i + 1) % BLOCK_SIZE == 0
    ensures Round(v, id, off + i, b, i + 1).Going? <==>
      && Uses(fs.inodes[id].size, off, i) < FreeBlocks(fs.bfree) && (off + i) / BLOCK_SIZE + 1 < SLOTS
      && NextOk(fs, id, off, i)
  {
    hide Round, Tables, Ready, Shape, Stale, HasSlot, Poke, Resize, Attach, LowestFree, FreeBlocks, Uses;
    ReadySlot(v, id, off + i);
    var k := LowestFree(v.bfree, 0);
    BeyondRoom(fs, v, id, off, i);
    RoundBlock(v, id, off + i, b, i + 1);
    if k < BLOCKS && (off + i) / BLOCK_SIZE + 1 < SLOTS {
      BlockGrow(fs, v, id, off, i, b);
      if (off + i + 1) % BLOCK_SIZE == 0 {
        var u := Resize(Poke(v, id, off + i, b), id, v.inodes[id].size + 1);
        NextSlot(fs, Attach(u, id, (off + i) / BLOCK_SIZE + 1, k), id, off, i + 1);
      }
    }
  }

  lemma ReadySlot(v: FS, id: nat, pos: nat)
    requires Ready(v, id, pos)
    ensures Shape(v) && id < INODES && HasSlot(v.inodes[id], pos / BLOCK_SIZE)
  {
  }

  lemma StaleStep(nd: Inode, off: nat, i: nat)
    requires 0 <= nd.size < off
    ensures var j := (off + i + 1) / BLOCK_SIZE;
      StaleOk(nd, off, j) <==>
        StaleOk(nd, off, (off + i) / BLOCK_SIZE)
        && ((off + i + 1) % BLOCK_SIZE == 0 && Stale(nd.size, off, j) ==> HasSlot(nd, j))
  {
    hide Stale, HasSlot;
  }

  lemma {:induction false} PourIff(fs: FS, w: FS, id: nat, off: nat, bs: seq<byte>)
    requires Shape(fs) && id < INODES && 0 <= fs.inodes[id].size < off && fs.inodes[id].size < MAX_FILE
    requires HasSlot(fs.inodes[id], fs.inodes[id].size / BLOCK_SIZE)
    requires Tables(fs, w, id, off, 0) && w.data == fs.data
    ensures Pour(w, id, off, bs).Going? <==> CanWrite(fs, id, off, |bs|)
    decreases |bs|
  {
    hide Tables, Cells, Round, Shape, CanWrite, HasSlot;
    if bs == [] {
      StartIff(fs, w, id, off);
    } else {
      hide Pour;
      var bs', b := bs[..|bs| - 1], bs[|bs| - 1];
      assert bs == bs' + [b];
      PourIff(fs, w, id, off, bs');
      PourStep(w, id, off, bs', b);
      PourBeyond(fs, w, id, off, bs');
      var r := Pour(w, id, off, bs');
      if r.Going? {
        RoundIff(fs, r.fs, id, off, |bs'|, b);
      } else if CanWrite(fs, id, off, |bs|) {
        CanLess(fs, id, off, |bs'|);
      }
    }
  }

  lemma CanLess(fs: FS, id: nat, off: nat, n: nat)
    requires Shape(fs) && id < INODES && 0 <= fs.inodes[id].size < off && CanWrite(fs, id, off, n + 1)
    ensures CanWrite(fs, id, off, n)
  {
  }

  /** Before the first byte. */
  lemma StartIff(fs: FS, w: FS, id: nat, off: nat)
    requires Shape(fs) && id < INODES && 0 <= fs.inodes[id].size < off && Tables(fs, w, id, off, 0)
    requires HasSlot(fs.inodes[id], fs.inodes[id].size / BLOCK_SIZE)
    ensures HasSlot(w.inodes[id], off / BLOCK_SIZE) <==> CanWrite(fs, id, off, 0)
  {
    var j, nd := off / BLOCK_SIZE, fs.inodes[id];
    CursorSlot(nd.size, off, 0);
    hide SetBy, Stale, Take, FreeBlocks, NthFree;
    if j < SLOTS {
      assert SlotIs(fs, w.inodes[id], id, off, 0, j);
      if SetBy(nd.size, off, 0, j) { SetSlot(fs, id, off, 0, j); }
    }
  }

  /** A write beyond the end succeeds if and only if it can. */
  lemma BeyondIff(fs: FS, id: nat, off: nat, bs: seq<byte>)
    requires Inv(fs) && IsFile(fs, id) && fs.inodes[id].size < off
    ensures FileOk(fs, id) && (WriteOf(fs, id, off, bs).Going? <==> CanWrite(fs, id, off, |bs|))
  {
    assert FileOk(fs, id);
    var size := fs.inodes[id].size;
    hide Inv, FileOk, Tables, Pour, Shape, FreeBlocks, FilledTo;
    var w := Fill(fs, id, size / BLOCK_SIZE + 1, off / BLOCK_SIZE);
    NothingFilled(fs, id);
    FillTables(fs, fs, id, off, size / BLOCK_SIZE + 1);
    if w.Going? {
      if size == MAX_FILE { NoStart(w.fs, id, off, bs); } else { PourIff(fs, w.fs, id, off, bs); }
    }
  }

  // ---- When a write beyond the end leaves the file system sound --------------------------------

  /** Stale slot `j`, which becomes the file's own, names a block that is used after the write, that
      no file owned before it, and that no other slot the file gains names. */
  ghost predicate Claimable(fs: FS, id: nat, off: nat, n: nat, j: nat)
    requires Shape(fs) && id < INODES && 0 <= fs.inodes[id].size < off && fs.inodes[id].size + n < MAX_FILE && j < SLOTS
  {
    var size, d := fs.inodes[id].size, fs.inodes[id].data[j];
    && 0 <= d < BLOCKS && !Take(fs.bfree, Uses(size, off, n))[d]
    && (forall o: nat, i: nat :: Owns(fs, o, i) ==> fs.inodes[o].data[i] != d)
    && (forall k: nat :: size / BLOCK_SIZE < k <= (size + n) / BLOCK_SIZE && k != j ==>
      SlotAfter(fs, id, off, n, k) != d)
  }

  /** All stale slots that become the file's own can be. */
  ghost predicate Claims(fs: FS, id: nat, off: nat, n: nat)
    requires Shape(fs) && id < INODES && 0 <= fs.inodes[id].size < off && fs.inodes[id].size + n < MAX_FILE
  {
    var size := fs.inodes[id].size;
    forall j: nat :: j <= (size + n) / BLOCK_SIZE && Stale(size, off, j) ==> Claimable(fs, id, off, n, j)
  }

  /** A slot that a file gains by growing was set or is stale. */
  lemma GainedSlot(size: nat, off: nat, n: nat, j: nat)
    requires size < off && size / BLOCK_SIZE < j <= (size + n) / BLOCK_SIZE
    ensures SetBy(size, off, n, j) <==> !Stale(size, off, j)
  {
  }

  /** The slots of the file after the write: its own ones, those set, and the stale ones. */
  lemma SlotKind(fs: FS, v: FS, id: nat, off: nat, n: nat, j: nat)
    requires Inv(fs) && IsFile(fs, id) && FileOk(fs, id) && fs.inodes[id].size < off
      && fs.inodes[id].size + n < MAX_FILE
    requires Tables(fs, v, id, off, n) && j <= (fs.inodes[id].size + n) / BLOCK_SIZE
    ensures j < SLOTS
    ensures var size, d := fs.inodes[id].size, v.inodes[id].data[j];
      if j <= size / BLOCK_SIZE then Owns(fs, id, j) && d == fs.inodes[id].data[j] && 0 <= d < BLOCKS && !fs.bfree[d]
      else if Stale(size, off, j) then d == fs.inodes[id].data[j]
      else && SetBy(size, off, n, j) && 0 <= d < BLOCKS && fs.bfree[d] && !v.bfree[d]
           && d == SlotAfter(fs, id, off, n, j)
  {
    var size := fs.inodes[id].size;
    assert SlotIs(fs, v.inodes[id], id, off, n, j);
    if j > size / BLOCK_SIZE {
      GainedSlot(size, off, n, j);
      if SetBy(size, off, n, j) { SetSlot(fs, id, off, n, j); }
    } else {
      assert !SetBy(size, off, n, j);
    }
    hide SetBy, Stale, Take, FreeBlocks, NthFree, Uses, Exclusive;
  }

  lemma SetApart(fs: FS, id: nat, off: nat, n: nat, j: nat, k: nat)
    requires Shape(fs) && id < INODES && 0 <= fs.inodes[id].size < off && j < SLOTS && k < SLOTS && j != k
    requires SetBy(fs.inodes[id].size, off, n, j) && SetBy(fs.inodes[id].size, off, n, k)
    requires Uses(fs.inodes[id].size, off, n) <= FreeBlocks(fs.bfree)
    ensures SlotAfter(fs, id, off, n, j) != SlotAfter(fs, id, off, n, k)
  {
    var size := fs.inodes[id].size;
    TurnIs(size, off, n, j);
    TurnIs(size, off, n, k);
    TurnsApart(size, off, n, j, k);
    hide SetBy, Turn, Uses, NthFree, FreeBlocks;
    if Turn(size, off, j) < Turn(size, off, k) {
      NthFreeApart(fs.bfree, Turn(size, off, j), Turn(size, off, k));
    } else {
      NthFreeApart(fs.bfree, Turn(size, off, k), Turn(size, off, j));
    }
  }

  /** Two slots of the file, after the write, name different blocks. */
  lemma OwnApart(fs: FS, v: FS, id: nat, off: nat, n: nat, j: nat, k: nat)
    requires Inv(fs) && IsFile(fs, id) && FileOk(fs, id) && fs.inodes[id].size < off
      && fs.inodes[id].size + n < MAX_FILE
    requires Tables(fs, v, id, off, n) && Claims(fs, id, off, n) && j < k <= (fs.inodes[id].size + n) / BLOCK_SIZE
    ensures k < SLOTS && v.inodes[id].data[j] != v.inodes[id].data[k]
  {
    var size := fs.inodes[id].size;
    SlotKind(fs, v, id, off, n, j);
    SlotKind(fs, v, id, off, n, k);
    assert SlotIs(fs, v.inodes[id], id, off, n, j) && SlotIs(fs, v.inodes[id], id, off, n, k);
    hide SetBy, Stale, Take, FreeBlocks, NthFree, Uses, SlotAfter;
    if k <= size / BLOCK_SIZE {
      Files.Apart(fs, id, j, id, k);
    } else if Stale(size, off, k) {
      assert Claimable(fs, id, off, n, k);
    } else if j > size / BLOCK_SIZE {
      if Stale(size, off, j) {
        assert Claimable(fs, id, off, n, j);
      } else {
        SetApart(fs, id, off, n, j, k);
      }
    }
  }

  /** A slot of the file and one of another file, after the write. */
  lemma OtherApart(fs: FS, v: FS, id: nat, off: nat, n: nat, j: nat, o: nat, i: nat)
    requires Inv(fs) && IsFile(fs, id) && FileOk(fs, id) && fs.inodes[id].size < off
      && fs.inodes[id].size + n < MAX_FILE
    requires Tables(fs, v, id, off, n) && Claims(fs, id, off, n) && j <= (fs.inodes[id].size + n) / BLOCK_SIZE
    requires Owns(fs, o, i) && o != id
    ensures j < SLOTS && v.inodes[id].data[j] != fs.inodes[o].data[i]
  {
    var size := fs.inodes[id].size;
    SlotKind(fs, v, id, off, n, j);
    assert FileOk(fs, o);
    hide SetBy, Stale, Take, FreeBlocks, NthFree, Uses, SlotAfter;
    if j <= size / BLOCK_SIZE {
      Files.Apart(fs, id, j, o, i);
    } else if Stale(size, off, j) {
      assert Claimable(fs, id, off, n, j);
    }
  }

  lemma ClaimsSound(fs: FS, v: FS, id: nat, off: nat, n: nat)
    requires Inv(fs) && IsFile(fs, id) && FileOk(fs, id) && fs.inodes[id].size < off
      && fs.inodes[id].size + n < MAX_FILE
    requires Tables(fs, v, id, off, n) && Claims(fs, id, off, n)
    ensures Inv(v)
  {
    var size := fs.inodes[id].size;
    hide SetBy, Stale, FreeBlocks, NthFree, Uses, SlotAfter, SlotIs;
    forall o: nat | IsFile(v, o) ensures FileOk(v, o) {
      assert FileOk(fs, o);
      if o == id {
        forall j: nat | j < Owned(size + n)
          ensures 0 <= v.inodes[id].data[j] < BLOCKS && !v.bfree[v.inodes[id].data[j]] {
          SlotKind(fs, v, id, off, n, j);
          assert j <= size / BLOCK_SIZE || !Stale(size, off, j) || Claimable(fs, id, off, n, j);
        }
      }
    }
    ClaimsExclusive(fs, v, id, off, n);
  }

  lemma ClaimsExclusive(fs: FS, v: FS, id: nat, off: nat, n: nat)
    requires Inv(fs) && IsFile(fs, id) && FileOk(fs, id) && fs.inodes[id].size < off
      && fs.inodes[id].size + n < MAX_FILE
    requires Tables(fs, v, id, off, n) && Claims(fs, id, off, n)
    ensures Exclusive(v)
  {
    assert forall o: nat, i: nat :: Owns(v, o, i) && o != id ==> Owns(fs, o, i) && v.inodes[o] == fs.inodes[o];
    assert forall i: nat :: Owns(v, id, i) ==> i <= (fs.inodes[id].size + n) / BLOCK_SIZE;
    hide Tables, Claims, FileOk, Shape;
    forall a: nat, b: nat, j: nat, k: nat | Owns(v, a, j) && Owns(v, b, k) && v.inodes[a].data[j] == v.inodes[b].data[k]
      ensures a == b && j == k
    {
      if a == id && b == id {
        if j < k { OwnApart(fs, v, id, off, n, j, k); } else if k < j { OwnApart(fs, v, id, off, n, k, j); }
      } else if a == id {
        OtherApart(fs, v, id, off, n, j, b, k);
      } else if b == id {
        OtherApart(fs, v, id, off, n, k, a, j);
      }
    }
  }

  lemma SoundClaims(fs: FS, v: FS, id: nat, off: nat, n: nat)
    requires Inv(fs) && IsFile(fs, id) && FileOk(fs, id) && fs.inodes[id].size < off
      && fs.inodes[id].size + n < MAX_FILE
    requires Tables(fs, v, id, off, n) && Inv(v)
    ensures Claims(fs, id, off, n)
  {
    var size := fs.inodes[id].size;
    assert FileOk(v, id);
    hide SetBy, Stale, FreeBlocks, NthFree, Uses, SlotAfter;
    forall j: nat | j <= (size + n) / BLOCK_SIZE && Stale(size, off, j) ensures Claimable(fs, id, off, n, j) {
      StaleOwned(size, off, j);
      SlotKind(fs, v, id, off, n, j);
      var d := fs.inodes[id].data[j];
      assert Owns(v, id, j);
      forall o: nat, i: nat | Owns(fs, o, i) ensures fs.inodes[o].data[i] != d {
        if o == id { SlotKind(fs, v, id, off, n, i); }
        assert Owns(v, o, i);
        Files.Apart(v, id, j, o, i);
      }
      forall k: nat | size / BLOCK_SIZE < k <= (size + n) / BLOCK_SIZE && k != j
        ensures SlotAfter(fs, id, off, n, k) != d {
        assert SlotIs(fs, v.inodes[id], id, off, n, k);
        Files.Apart(v, id, j, id, k);
      }
    }
  }

  lemma StaleOwned(size: nat, off: nat, j: nat)
    requires size < off && Stale(size, off, j)
    ensures j > size / BLOCK_SIZE
  {
  }

  /** A write beyond the end that succeeds leaves the file system sound if and only if each stale slot
      that becomes the file's own, by the growth of its size, names a used block that is nobody's. */
  lemma SoundIff(fs: FS, id: nat, off: nat, bs: seq<byte>)
    requires Inv(fs) && IsFile(fs, id) && FileOk(fs, id) && fs.inodes[id].size < off
    requires WriteOf(fs, id, off, bs).Going?
    ensures fs.inodes[id].size + |bs| < MAX_FILE
    ensures Inv(WriteOf(fs, id, off, bs).fs) <==> Claims(fs, id, off, |bs|)
    ensures (fs.inodes[id].size + |bs|) / BLOCK_SIZE == fs.inodes[id].size / BLOCK_SIZE ==>
      Inv(WriteOf(fs, id, off, bs).fs)
  {
    BeyondIff(fs, id, off, bs);
    hide Tables, Inv, WriteOf, Shape;
    RawBeyond(fs, id, off, bs);
    var v := WriteOf(fs, id, off, bs).fs;
    if Inv(v) { SoundClaims(fs, v, id, off, |bs|); }
    if Claims(fs, id, off, |bs|) { ClaimsSound(fs, v, id, off, |bs|); }
  }
}
