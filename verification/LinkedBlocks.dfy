/** How a block list is laid out in memory: one header per block, holding the free mark,
    the payload size and the offset of the next header. The two allocators encode headers
    differently; this module only sees the headers that can be read back at each offset. */
module LinkedBlocks {
  import opened Bytes
  import opened BlockList

  /** `isF` is 1 for a free block and 0 for a taken one; `next` is -1 for no next block. */
  datatype Header = Header(isF: nat, size: nat, next: int)

  ghost function Mark(b: Block): nat {
    if b.free then 1 else 0
  }

  ghost function After(bs: seq<Block>, i: nat): int
    requires i <= |bs|
  {
    if i < |bs| then bs[i].addr else -1
  }

  /** The headers `hs` hold exactly the block list `bs`. */
  ghost predicate Linked(hs: map<nat, Header>, bs: seq<Block>)
  {
    && (forall i :: 0 <= i < |bs| ==>
          bs[i].addr in hs && hs[bs[i].addr].isF == Mark(bs[i]) && hs[bs[i].addr].size == bs[i].size)
    && (forall i, j :: 0 <= i && j == i + 1 && j < |bs| ==> hs[bs[i].addr].next == bs[j].addr)
    && (forall i :: 0 <= i && i == |bs| - 1 ==> hs[bs[i].addr].next == -1)
  }

  lemma LinkFresh(hs: map<nat, Header>, h: nat, t: nat)
    requires 0 < h <= t && 0 in hs && hs[0] == Header(1, t - h, -1)
    ensures Heap(Fresh(h, t), h, t) && Linked(hs, Fresh(h, t))
  {
  }

  /** What a scan finds at block `i`: its header, and the way to the next block. */
  lemma HeaderOf(hs: map<nat, Header>, bs: seq<Block>, i: nat, h: nat, t: nat)
    requires Heap(bs, h, t) && Linked(hs, bs) && i < |bs|
    ensures bs[i].addr in hs && hs[bs[i].addr] == Header(Mark(bs[i]), bs[i].size, After(bs, i + 1))
    ensures bs[i].addr + h + bs[i].size <= t
    ensures i + 1 < |bs| ==> bs[i + 1].addr == bs[i].addr + h + bs[i].size
  {
    Within(bs, 0, h, t, i);
  }

  /** The header of block `i` reads the same in both memories. */
  ghost predicate Same(hs: map<nat, Header>, hs': map<nat, Header>, b: Block)
  {
    b.addr in hs && b.addr in hs' && hs'[b.addr] == hs[b.addr]
  }

  lemma LinkSame(hs: map<nat, Header>, hs': map<nat, Header>, bs: seq<Block>)
    requires Linked(hs, bs) && forall i :: 0 <= i < |bs| ==> Same(hs, hs', bs[i])
    ensures Linked(hs', bs)
  {
  }

  lemma LinkFuse(hs: map<nat, Header>, hs': map<nat, Header>, bs: seq<Block>, lo: nat, hi: nat, b: Block)
    requires Linked(hs, bs) && lo < hi <= |bs| && b.addr == bs[lo].addr
    requires b.addr in hs' && hs'[b.addr] == Header(Mark(b), b.size, After(bs, hi))
    requires forall i :: 0 <= i < lo || hi <= i < |bs| ==> Same(hs, hs', bs[i])
    ensures Linked(hs', Fuse(bs, lo, hi, b))
  {
  }

  lemma LinkSplit(hs: map<nat, Header>, hs': map<nat, Header>, bs: seq<Block>, k: nat, x: Block, y: Block)
    requires Linked(hs, bs) && k < |bs| && x.addr == bs[k].addr
    requires x.addr in hs' && hs'[x.addr] == Header(Mark(x), x.size, y.addr)
    requires y.addr in hs' && hs'[y.addr] == Header(Mark(y), y.size, After(bs, k + 1))
    requires forall i :: 0 <= i < |bs| && i != k ==> Same(hs, hs', bs[i])
    ensures Linked(hs', Split(bs, k, x, y))
  {
  }

  predicate Clear(x: nat, o: nat, h: nat) {
    x + h <= o || o + h <= x
  }

  /** Headers that do not overlap the `h` bytes at `o` read the same in both memories. */
  ghost predicate Kept(hs: map<nat, Header>, hs': map<nat, Header>, o: nat, h: nat)
  {
    hs.Keys == hs'.Keys && forall x :: x in hs && Clear(x, o, h) ==> hs'[x] == hs[x]
  }

  /** After a write to the header of block `k`, another block `j` still reads as listed. */
  lemma HeaderKept(hs: map<nat, Header>, hs': map<nat, Header>, bs: seq<Block>, k: nat, j: nat, h: nat, t: nat)
    requires Heap(bs, h, t) && Linked(hs, bs) && k < |bs| && j < |bs| && j != k
    requires Kept(hs, hs', bs[k].addr, h)
    ensures bs[j].addr in hs' && hs'[bs[j].addr] == Header(Mark(bs[j]), bs[j].size, After(bs, j + 1))
    ensures bs[j].addr + h + bs[j].size <= t
  {
    OthersSame(hs, hs', bs, k, bs[k].addr, h, t);
    HeaderOf(hs, bs, j, h, t);
    assert Same(hs, hs', bs[j]);
  }

  lemma KeptTwice(hs: map<nat, Header>, mid: map<nat, Header>, hs': map<nat, Header>, o: nat, h: nat)
    requires Kept(hs, mid, o, h) && Kept(mid, hs', o, h)
    ensures Kept(hs, hs', o, h)
  {
  }

  /** Writing inside block `k` alone leaves the headers of all other blocks. */
  lemma OthersSame(hs: map<nat, Header>, hs': map<nat, Header>, bs: seq<Block>, k: nat, o: nat, h: nat, t: nat)
    requires Heap(bs, h, t) && Linked(hs, bs) && k < |bs| && Kept(hs, hs', o, h)
    requires bs[k].addr <= o && o <= bs[k].addr + bs[k].size
    ensures forall i :: 0 <= i < |bs| && i != k ==> Same(hs, hs', bs[i])
  {
    forall i | 0 <= i < |bs| && i != k ensures Same(hs, hs', bs[i]) {
      Apart(bs, 0, h, t, if i < k then i else k, if i < k then k else i);
      assert Clear(bs[i].addr, o, h);
    }
  }

  /** An exact fit: only the mark of block `k` changed. */
  lemma LinkTakeWhole(hs: map<nat, Header>, hs': map<nat, Header>, bs: seq<Block>, k: nat, h: nat, t: nat)
    requires Heap(bs, h, t) && Linked(hs, bs) && k < |bs| && bs[k].free
    requires Kept(hs, hs', bs[k].addr, h) && bs[k].addr in hs'
    requires hs'[bs[k].addr] == hs[bs[k].addr].(isF := 0)
    ensures Linked(hs', TakeAt(bs, k, bs[k].size, h)) && Heap(TakeAt(bs, k, bs[k].size, h), h, t)
  {
    TakeKeepsHeap(bs, k, bs[k].size, h, t);
    OthersSame(hs, hs', bs, k, bs[k].addr, h, t);
    HeaderOf(hs, bs, k, h, t);
    var b := Block(bs[k].addr, bs[k].size, false);
    LinkFuse(hs, hs', bs, k, k + 1, b);
    assert Fuse(bs, k, k + 1, b) == TakeAt(bs, k, bs[k].size, h);
  }

  /** A larger fit: a header written inside block `k`, then block `k`'s own header. */
  lemma LinkTakeSplit(hs: map<nat, Header>, mid: map<nat, Header>, hs': map<nat, Header>, bs: seq<Block>, k: nat,
    n: nat, h: nat, t: nat)
    requires Heap(bs, h, t) && Linked(hs, bs) && k < |bs| && bs[k].free && n + h <= bs[k].size
    requires var o := bs[k].addr; var y := o + h + n;
      && Kept(hs, mid, y, h) && y in mid && mid[y] == Header(1, bs[k].size - n - h, After(bs, k + 1))
      && Kept(mid, hs', o, h) && o in hs' && hs'[o] == Header(0, n, y)
    ensures Linked(hs', TakeAt(bs, k, n, h)) && Heap(TakeAt(bs, k, n, h), h, t)
  {
    TakeKeepsHeap(bs, k, n, h, t);
    var o := bs[k].addr;
    var y := o + h + n;
    assert Clear(y, o, h);
    forall i | 0 <= i < |bs| && i != k ensures Same(hs, hs', bs[i]) {
      Apart(bs, 0, h, t, if i < k then i else k, if i < k then k else i);
      assert Clear(bs[i].addr, o, h) && Clear(bs[i].addr, y, h);
    }
    LinkSplit(hs, hs', bs, k, Block(o, n, false), Block(y, bs[k].size - n - h, true));
  }

  /** Release: the header of the fused run is rewritten; the headers it absorbs go stale. */
  lemma LinkFree(hs: map<nat, Header>, mid: map<nat, Header>, hs': map<nat, Header>, bs: seq<Block>, k: nat, h: nat,
    t: nat)
    requires Heap(bs, h, t) && Linked(hs, bs) && k < |bs| && !bs[k].free
    requires var lo, hi, o := FuseLo(bs, k), FuseHi(bs, k), bs[k].addr;
      && Kept(hs, mid, o, h) && o in mid
      && mid[o] == Header(1, bs[k].size + (if hi == k + 2 then h + bs[k + 1].size else 0), After(bs, hi))
      && (lo == k ==> hs' == mid)
      && (lo < k ==> Kept(mid, hs', bs[lo].addr, h) && bs[lo].addr in hs'
                     && hs'[bs[lo].addr] == Header(1, bs[lo].size + h + mid[o].size, mid[o].next))
    ensures Linked(hs', FreeAt(bs, k, h)) && Heap(FreeAt(bs, k, h), h, t)
  {
    FreeKeepsHeap(bs, k, h, t);
    var lo, hi, o := FuseLo(bs, k), FuseHi(bs, k), bs[k].addr;
    forall i | 0 <= i < lo || hi <= i < |bs| ensures Same(hs, hs', bs[i]) {
      Apart(bs, 0, h, t, if i < k then i else k, if i < k then k else i);
      assert Clear(bs[i].addr, o, h);
      if lo < k {
        Apart(bs, 0, h, t, if i < lo then i else lo, if i < lo then lo else i);
        assert Clear(bs[i].addr, bs[lo].addr, h);
      }
    }
    LinkFuse(hs, hs', bs, lo, hi, FreeAt(bs, k, h)[lo]);
  }

  /** Nothing outside `lo..hi` changed. */
  twostate predicate OnlyWithin(memory: array<byte>, lo: nat, hi: nat)
    reads memory
  {
    forall x: nat :: x < memory.Length && !(lo <= x < hi) ==> memory[x] == old(memory[x])
  }

  /** The payload of block `b` is as it was. */
  twostate predicate PayloadKept(memory: array<byte>, b: Block, h: nat)
    reads memory
  {
    forall x: nat :: x < memory.Length && b.addr + h <= x < b.addr + h + b.size ==> memory[x] == old(memory[x])
  }
}
