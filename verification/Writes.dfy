/** `sfs_write` of assignment3/src/sfs.c as a function on file systems: the loop that is meant to fill
    a hole, then one round per byte. What it computes for a write that starts within the file, and when
    it runs out of blocks. */
module Writes {
  import opened Bytes
  import opened SfsLayout
  import opened Files

  /** Lowest free mark from `n` on, `|marks|` if there is none. */
  ghost function LowestFree(marks: seq<bool>, n: nat): (k: nat)
    requires n <= |marks|
    ensures n <= k <= |marks|
    ensures k < |marks| ==> marks[k]
    ensures forall i :: n <= i < k ==> !marks[i]
    decreases |marks| - n
  {
    if n == |marks| || marks[n] then n else LowestFree(marks, n + 1)
  }

  lemma LowestFreeIs(marks: seq<bool>, n: nat, k: nat)
    requires n <= k <= |marks| && (k < |marks| ==> marks[k]) && forall i :: n <= i < k ==> !marks[i]
    ensures LowestFree(marks, n) == k
  {
  }

  /** How a write ends: `Going` is the file system with all bytes written, `Capped` the one in which
      the file has become maximal after `n` bytes. `NoRoom` means that no block is free, `Lost` that
      the code goes on to a slot that names no data block. */
  datatype Outcome = Going(fs: FS) | Capped(fs: FS, n: nat) | NoRoom | Lost

  /** The cursor can be at byte `pos` of inode `id`. */
  ghost predicate Ready(fs: FS, id: nat, pos: nat)
    ensures Ready(fs, id, pos) ==> Shape(fs)
  {
    Shape(fs) && id < INODES && 0 <= fs.inodes[id].size <= MAX_FILE && HasSlot(fs.inodes[id], pos / BLOCK_SIZE)
  }

  /** Block `k` marked used and put in slot `j`. */
  ghost function Attach(fs: FS, id: nat, j: nat, k: nat): (r: FS)
    requires Shape(fs) && id < INODES && j < SLOTS && k < BLOCKS
    ensures Shape(r)
  {
    var nd := fs.inodes[id];
    fs.(inodes := fs.inodes[id := nd.(data := nd.data[j := k])], bfree := fs.bfree[k := false])
  }

  ghost function Resize(fs: FS, id: nat, size: nat): (r: FS)
    requires Shape(fs) && id < INODES && size <= MAX_FILE
    ensures Shape(r)
  {
    fs.(inodes := fs.inodes[id := fs.inodes[id].(size := size)])
  }

  /** The size goes up by one; where that fills a block, the lowest free block goes to the slot
      behind the cursor's slot `blk`. */
  ghost function Lengthen(fs: FS, id: nat, blk: nat, n: nat): (r: Outcome)
    requires Shape(fs) && id < INODES && 0 <= fs.inodes[id].size < MAX_FILE
  {
    var size := fs.inodes[id].size + 1;
    var v := Resize(fs, id, size);
    if size % BLOCK_SIZE != 0 then Going(v)
    else if size == MAX_FILE then Capped(v, n)
    else
      var k := LowestFree(fs.bfree, 0);
      if k == BLOCKS then NoRoom else if blk + 1 >= SLOTS then Lost else Going(Attach(v, id, blk + 1, k))
  }

  /** One round of the write loop, for the `n`-th byte. */
  ghost function Round(fs: FS, id: nat, pos: nat, b: byte, n: nat): (r: Outcome)
    requires Ready(fs, id, pos)
    ensures r.Going? ==> Ready(r.fs, id, pos + 1)
  {
    var v := Poke(fs, id, pos, b);
    var g := if pos < fs.inodes[id].size then Going(v) else Lengthen(v, id, pos / BLOCK_SIZE, n);
    if g.Going? && (pos + 1) % BLOCK_SIZE == 0 && !HasSlot(g.fs.inodes[id], (pos + 1) / BLOCK_SIZE) then Lost else g
  }

  /** The write loop. */
  ghost function Pour(fs: FS, id: nat, off: nat, bs: seq<byte>): (r: Outcome)
    requires Shape(fs) && id < INODES && 0 <= fs.inodes[id].size <= MAX_FILE
    ensures r.Going? ==> Ready(r.fs, id, off + |bs|)
    decreases |bs|
  {
    hide Round, Shape;
    if bs == [] then
      if HasSlot(fs.inodes[id], off / BLOCK_SIZE) then Going(fs) else Lost
    else
      var m := |bs| - 1;
      var r := Pour(fs, id, off, bs[..m]);
      if r.Going? then Round(r.fs, id, off + m, bs[m], m + 1) else r
  }

  lemma PourStep(fs: FS, id: nat, off: nat, bs: seq<byte>, b: byte)
    requires Shape(fs) && id < INODES && 0 <= fs.inodes[id].size <= MAX_FILE
    ensures var r := Pour(fs, id, off, bs);
      Pour(fs, id, off, bs + [b]) == if r.Going? then Round(r.fs, id, off + |bs|, b, |bs| + 1) else r
  {
    hide *;
    var bs' := bs + [b];
    assert bs'[..|bs'| - 1] == bs && bs'[|bs'| - 1] == b;
    PourUnfold(fs, id, off, bs');
  }

  lemma PourUnfold(fs: FS, id: nat, off: nat, bs: seq<byte>)
    requires Shape(fs) && id < INODES && 0 <= fs.inodes[id].size <= MAX_FILE && bs != []
    ensures var m := |bs| - 1;
      var r := Pour(fs, id, off, bs[..m]);
      Pour(fs, id, off, bs) == if r.Going? then Round(r.fs, id, off + m, bs[m], m + 1) else r
  {
    hide Round, Shape, Ready, HasSlot;
  }

  /** A write that has ended stays ended. */
  lemma {:induction false} PourStops(fs: FS, id: nat, off: nat, bs: seq<byte>, more: seq<byte>)
    requires Shape(fs) && id < INODES && 0 <= fs.inodes[id].size <= MAX_FILE
    ensures !Pour(fs, id, off, bs).Going? ==> Pour(fs, id, off, bs + more) == Pour(fs, id, off, bs)
    decreases |more|
  {
    if more == [] {
      assert bs + more == bs;
    } else {
      hide Pour;
      var m := |more| - 1;
      PourStops(fs, id, off, bs, more[..m]);
      PourStep(fs, id, off, bs + more[..m], more[m]);
      assert bs + more == bs + more[..m] + [more[m]];
    }
  }

  /** The loop that is meant to fill the hole before slot `blk`. */
  ghost function Fill(fs: FS, id: nat, owned: nat, blk: nat): (r: Outcome)
    requires Shape(fs) && id < INODES
    ensures r.Going? ==> Shape(r.fs) && r.fs.inodes[id].size == fs.inodes[id].size
    ensures !r.Capped?
    decreases blk - owned
  {
    if blk <= owned then Going(fs)
    else
      var k := LowestFree(fs.bfree, 0);
      if k == BLOCKS then NoRoom
      else if owned + 1 >= SLOTS then Lost
      else Fill(Attach(fs, id, owned + 1, k), id, owned + 1, blk)
  }

  /** `sfs_write` of `bs`, not empty, to inode `id`. */
  ghost function WriteOf(fs: FS, id: nat, off: nat, bs: seq<byte>): Outcome
    requires Shape(fs) && id < INODES && 0 <= fs.inodes[id].size <= MAX_FILE
  {
    var w := Fill(fs, id, fs.inodes[id].size / BLOCK_SIZE + 1, off / BLOCK_SIZE);
    if w.Going? then Pour(w.fs, id, off, bs) else w
  }

  /** No write touches the magic number. */
  lemma {:induction false} PourMagic(fs: FS, id: nat, off: nat, bs: seq<byte>)
    requires Shape(fs) && id < INODES && 0 <= fs.inodes[id].size <= MAX_FILE
    ensures var r := Pour(fs, id, off, bs); r.Going? || r.Capped? ==> r.fs.magic == fs.magic
    decreases |bs|
  {
    hide LowestFree;
    if bs == [] {
    } else {
      PourMagic(fs, id, off, bs[..|bs| - 1]);
    }
  }

  lemma {:induction false} FillMagic(fs: FS, id: nat, owned: nat, blk: nat)
    requires Shape(fs) && id < INODES
    ensures var r := Fill(fs, id, owned, blk); r.Going? ==> r.fs.magic == fs.magic
    decreases blk - owned
  {
    var k := LowestFree(fs.bfree, 0);
    hide LowestFree;
    if blk <= owned {
    } else if k < BLOCKS && owned + 1 < SLOTS {
      FillMagic(Attach(fs, id, owned + 1, k), id, owned + 1, blk);
    }
  }

  lemma WriteMagic(fs: FS, id: nat, off: nat, bs: seq<byte>)
    requires Shape(fs) && id < INODES && 0 <= fs.inodes[id].size <= MAX_FILE
    ensures var r := WriteOf(fs, id, off, bs); r.Going? || r.Capped? ==> r.fs.magic == fs.magic
  {
    hide Pour, Fill;
    var w := Fill(fs, id, fs.inodes[id].size / BLOCK_SIZE + 1, off / BLOCK_SIZE);
    FillMagic(fs, id, fs.inodes[id].size / BLOCK_SIZE + 1, off / BLOCK_SIZE);
    if w.Going? { PourMagic(w.fs, id, off, bs); }
  }

  // ---- Writes that start within the file -------------------------------------------------------

  /** No hole, nothing to fill. */
  lemma NoHole(fs: FS, id: nat, off: nat, bs: seq<byte>)
    requires Shape(fs) && id < INODES && off <= fs.inodes[id].size <= MAX_FILE
    ensures WriteOf(fs, id, off, bs) == Pour(fs, id, off, bs)
  {
  }

  /** What a round at or before the end of the file does is `Put` with the lowest free block. */
  lemma RoundIsPut(fs: FS, id: nat, pos: nat, b: byte, n: nat)
    requires Inv(fs) && IsFile(fs, id) && FileOk(fs, id) && Ready(fs, id, pos) && pos <= fs.inodes[id].size
    ensures pos < MAX_FILE
    ensures var r, k, ends := Round(fs, id, pos, b, n), LowestFree(fs.bfree, 0), pos == fs.inodes[id].size;
      && (r.NoRoom? <==> ends && NeedsBlock(pos + 1) && k == BLOCKS)
      && (r.Capped? <==> ends && pos + 1 == MAX_FILE)
      && (r.Capped? ==> r.n == n)
      && (r.Lost? ==> pos + 1 == MAX_FILE == fs.inodes[id].size)
      && (r.Going? || r.Capped? ==> r.fs == Put(fs, id, pos, b, if k < BLOCKS then k else 0))
  {
    hide Flat, Exclusive, LowestFree;
    var k := LowestFree(fs.bfree, 0);
    var v := Poke(fs, id, pos, b);
    Holds(fs.inodes[id].size, pos);
    if pos == fs.inodes[id].size {
      var nd := fs.inodes[id];
      assert NeedsBlock(pos + 1) ==> (pos + 1) / BLOCK_SIZE == pos / BLOCK_SIZE + 1;
      var u := Resize(v, id, pos + 1);
      assert u.inodes[id].data == nd.data;
      if NeedsBlock(pos + 1) && k < BLOCKS {
        assert Attach(u, id, pos / BLOCK_SIZE + 1, k) == Extend(v, id, k);
      } else if !NeedsBlock(pos + 1) {
        assert u == Extend(v, id, if k < BLOCKS then k else 0);
      }
    } else if pos + 1 < MAX_FILE {
      Holds(fs.inodes[id].size, pos + 1);
    }
  }

  /** Whether a write at or before the end of the file ends well, and what it then has done. */
  ghost predicate Within(fs: FS, id: nat, off: nat, bs: seq<byte>, r: Outcome)
    requires Inv(fs) && IsFile(fs, id) && off <= fs.inodes[id].size
  {
    match r
    case Going(v) => Written(fs, v, id, off, bs) && off + |bs| < MAX_FILE
    case Capped(v, n) =>
      && n <= |bs| && off + n == MAX_FILE && fs.inodes[id].size < MAX_FILE
      && Written(fs, v, id, off, bs[..n])
    case NoRoom => fs.inodes[id].size < off + |bs|
    case Lost => off + |bs| >= MAX_FILE == fs.inodes[id].size
  }

  /** A write that starts within the file splices the bytes into it, all of them or as many as fit
      below the maximal size, and leaves the other files alone. It goes astray only at the end of a
      file that was maximal before. */
  lemma {:induction false} PourWithin(fs: FS, id: nat, off: nat, bs: seq<byte>)
    requires Inv(fs) && IsFile(fs, id) && off <= fs.inodes[id].size <= MAX_FILE
    ensures Within(fs, id, off, bs, Pour(fs, id, off, bs))
    decreases |bs|
  {
    assert FileOk(fs, id);
    hide Inv, FileOk, Written, Flat, Round, Shape;
    if bs == [] {
      NothingWritten(fs, id, off);
      StartWithin(fs, id, off);
    } else {
      hide Pour;
      var m := |bs| - 1;
      var bs', r := bs[..m], Pour(fs, id, off, bs[..m]);
      assert bs == bs' + [bs[m]];
      PourWithin(fs, id, off, bs');
      PourStep(fs, id, off, bs', bs[m]);
      if r.Going? {
        RoundWithin(fs, r.fs, id, off, bs', bs[m]);
      } else if r.Capped? {
        assert bs'[..r.n] == bs[..r.n];
      }
    }
  }

  lemma ReadyBound(fs: FS, id: nat, pos: nat)
    requires Ready(fs, id, pos)
    ensures pos < MAX_FILE
  {
  }

  lemma StartWithin(fs: FS, id: nat, off: nat)
    requires Inv(fs) && IsFile(fs, id) && off <= fs.inodes[id].size <= MAX_FILE
    ensures HasSlot(fs.inodes[id], off / BLOCK_SIZE) <==> off < MAX_FILE
  {
    assert FileOk(fs, id);
    if off < MAX_FILE { Holds(fs.inodes[id].size, off); }
  }

  lemma RoundWithin(fs: FS, v: FS, id: nat, off: nat, bs: seq<byte>, b: byte)
    requires Inv(fs) && IsFile(fs, id) && off <= fs.inodes[id].size && Written(fs, v, id, off, bs)
    requires Ready(v, id, off + |bs|)
    ensures Within(fs, id, off, bs + [b], Round(v, id, off + |bs|, b, |bs| + 1))
  {
    hide Inv, FileOk, Written, Flat, Round, Shape, Put, LowestFree;
    WrittenSize(fs, v, id, off, bs);
    var pos, k := off + |bs|, LowestFree(v.bfree, 0);
    RoundIsPut(v, id, pos, b, |bs| + 1);
    var r := Round(v, id, pos, b, |bs| + 1);
    if r.Going? { ReadyBound(r.fs, id, pos + 1); }
    if r.Going? || r.Capped? {
      WrittenStep(fs, v, id, off, bs, b, if k < BLOCKS then k else 0);
      assert (bs + [b])[..|bs| + 1] == bs + [b];
    }
  }

  // ---- Room ------------------------------------------------------------------------------------

  function One(on: bool): nat {
    if on then 1 else 0
  }

  /** Number of free blocks. */
  ghost function FreeBlocks(marks: seq<bool>): nat {
    if marks == [] then 0 else One(marks[0]) + FreeBlocks(marks[1..])
  }

  lemma {:induction false} FreeBlocksUpdate(marks: seq<bool>, k: nat)
    requires k < |marks| && marks[k]
    ensures FreeBlocks(marks) == FreeBlocks(marks[k := false]) + 1
  {
    if k == 0 {
      assert marks[0 := false][1..] == marks[1..];
    } else {
      FreeBlocksUpdate(marks[1..], k - 1);
      assert marks[k := false][1..] == marks[1..][k - 1 := false];
    }
  }

  lemma {:induction false} NoneFree(marks: seq<bool>)
    requires forall k :: 0 <= k < |marks| ==> !marks[k]
    ensures FreeBlocks(marks) == 0
  {
    if marks == [] {
    } else {
      NoneFree(marks[1..]);
    }
  }

  lemma FreeOne(marks: seq<bool>)
    ensures FreeBlocks(marks) > 0 <==> LowestFree(marks, 0) < |marks|
  {
    var k := LowestFree(marks, 0);
    if k < |marks| { FreeBlocksUpdate(marks, k); } else { NoneFree(marks); }
  }

  /** `marks` with the lowest `c` free ones taken. */
  ghost function Take(marks: seq<bool>, c: nat): (r: seq<bool>)
    ensures |r| == |marks| && forall n :: 0 <= n < |marks| && r[n] ==> marks[n]
  {
    if c == 0 then marks
    else
      var t := Take(marks, c - 1);
      var k := LowestFree(t, 0);
      if k < |t| then t[k := false] else t
  }

  /** The free mark that has `c` free ones below it. */
  ghost function NthFree(marks: seq<bool>, c: nat): nat {
    LowestFree(Take(marks, c), 0)
  }

  lemma TakeNext(marks: seq<bool>, c: nat)
    requires NthFree(marks, c) < |marks|
    ensures Take(marks, c + 1) == Take(marks, c)[NthFree(marks, c) := false]
  {
    hide LowestFree;
  }

  lemma {:induction false} TakeCount(marks: seq<bool>, c: nat)
    requires c <= FreeBlocks(marks)
    ensures FreeBlocks(Take(marks, c)) == FreeBlocks(marks) - c
  {
    if c == 0 {
    } else {
      TakeCount(marks, c - 1);
      var t := Take(marks, c - 1);
      FreeOne(t);
      FreeBlocksUpdate(t, LowestFree(t, 0));
    }
  }

  lemma NthFreeIs(marks: seq<bool>, c: nat)
    requires c < FreeBlocks(marks)
    ensures NthFree(marks, c) < |marks| && marks[NthFree(marks, c)] && Take(marks, c)[NthFree(marks, c)]
  {
    hide FreeBlocks;
    TakeCount(marks, c);
    FreeOne(Take(marks, c));
  }

  lemma {:induction false} TakenStays(marks: seq<bool>, c: nat, d: nat)
    requires c < d && c < FreeBlocks(marks)
    ensures NthFree(marks, c) < |marks| && !Take(marks, d)[NthFree(marks, c)]
    decreases d
  {
    hide FreeBlocks, LowestFree;
    NthFreeIs(marks, c);
    if d == c + 1 {
    } else {
      TakenStays(marks, c, d - 1);
    }
  }

  lemma NthFreeApart(marks: seq<bool>, c: nat, d: nat)
    requires c < d < FreeBlocks(marks)
    ensures NthFree(marks, c) != NthFree(marks, d)
  {
    NthFreeIs(marks, d);
    TakenStays(marks, c, d);
  }

  /** The size a write of `n` bytes at `off` is to leave, no more than the maximal one. */
  function Target(size: nat, off: nat, n: nat): (r: nat)
    requires size <= MAX_FILE
    ensures size <= r <= MAX_FILE
  {
    if off + n <= size then size else if off + n <= MAX_FILE then off + n else MAX_FILE
  }

  /** How many blocks a file has to be given to hold it. */
  function Need(size: nat, off: nat, n: nat): (r: nat)
    requires size <= MAX_FILE
  {
    OwnedGrows(size, Target(size, off, n));
    Owned(Target(size, off, n)) - Owned(size)
  }

  lemma OwnedGrows(a: nat, b: nat)
    requires a <= b <= MAX_FILE
    ensures Owned(a) <= Owned(b)
  {
  }

  /** Each write takes exactly the blocks it needs; it fails for lack of room if and only if fewer
      are free. */
  lemma {:induction false} PourRoom(fs: FS, id: nat, off: nat, bs: seq<byte>)
    requires Inv(fs) && IsFile(fs, id) && off <= fs.inodes[id].size <= MAX_FILE
    ensures var r, need := Pour(fs, id, off, bs), Need(fs.inodes[id].size, off, |bs|);
      && (r.NoRoom? <==> FreeBlocks(fs.bfree) < need)
      && (r.Going? || r.Capped? ==> FreeBlocks(r.fs.bfree) == FreeBlocks(fs.bfree) - need)
    decreases |bs|
  {
    hide Inv, FileOk, Written, Flat, Round, Shape, FreeBlocks, Owned;
    var size := fs.inodes[id].size;
    if bs == [] {
    } else {
      hide Pour;
      var m := |bs| - 1;
      var bs', r := bs[..m], Pour(fs, id, off, bs[..m]);
      assert bs == bs' + [bs[m]];
      PourRoom(fs, id, off, bs');
      PourWithin(fs, id, off, bs');
      PourStep(fs, id, off, bs', bs[m]);
      OwnedGrows(size, Target(size, off, m));
      OwnedGrows(Target(size, off, m), Target(size, off, m + 1));
      if r.Going? { RoundRoom(fs, r.fs, id, off, bs', bs[m]); }
    }
  }

  lemma RoundRoom(fs: FS, v: FS, id: nat, off: nat, bs: seq<byte>, b: byte)
    requires Inv(fs) && IsFile(fs, id) && off <= fs.inodes[id].size && Written(fs, v, id, off, bs)
    requires Ready(v, id, off + |bs|)
    ensures var r, size := Round(v, id, off + |bs|, b, |bs| + 1), fs.inodes[id].size;
      var more := Owned(Target(size, off, |bs| + 1)) - Owned(Target(size, off, |bs|));
      && (r.NoRoom? <==> FreeBlocks(v.bfree) < more)
      && (r.Going? || r.Capped? ==> FreeBlocks(r.fs.bfree) == FreeBlocks(v.bfree) - more)
  {
    hide Inv, FileOk, Written, Flat, Round, Shape, LowestFree, FreeBlocks, HasSlot;
    WrittenSize(fs, v, id, off, bs);
    var pos, k := off + |bs|, LowestFree(v.bfree, 0);
    RoundIsPut(v, id, pos, b, |bs| + 1);
    if k < BLOCKS { FreeBlocksUpdate(v.bfree, k); } else { NoneFree(v.bfree); }
    if pos == v.inodes[id].size {
      GrownSlots(pos, Owned(pos));
      GrownSlots(pos, Owned(pos) + 1);
    }
  }
}
