/** MallocStuff/mymalloc.c: a 5000-byte arena whose block headers (isFree, a 16-bit size
    and a next pointer, 16 bytes in all) live in the arena's own bytes. */
module MyMalloc {
  import opened Bytes
  import opened BlockList
  import opened LinkedBlocks

  const MAX_MEMORY: nat := 5000
  const BLOCK_SIZE: nat := 16
  const USHORT: nat := 0x1_0000
  const SIZE_T: nat := 0x1_0000_0000_0000_0000

  /** The struct Block at offset `o`: isFree at 0, size at 2, next (an absolute pointer) at 8. */
  function HeaderAt(m: seq<byte>, base: nat, o: nat): Header
    requires o + BLOCK_SIZE <= |m|
  {
    var next := Load(m, o + 8, 8);
    Header(if m[o] != 0 then 1 else 0, Load(m, o + 2, 2), if next == 0 then -1 else next - base)
  }

  /** Every header that can be read from the memory `m`. */
  ghost function View(m: seq<byte>, base: nat): (hs: map<nat, Header>)
    ensures forall o: nat :: o in hs <==> o + BLOCK_SIZE <= |m|
  {
    map o: nat | o + BLOCK_SIZE <= |m| :: HeaderAt(m, base, o)
  }

  /** A header that does not overlap a write reads the same after it. */
  lemma HeaderUntouched(m: seq<byte>, base: nat, x: nat, a: nat, bs: seq<byte>)
    requires a + |bs| <= |m| && x + BLOCK_SIZE <= |m| && (x + BLOCK_SIZE <= a || a + |bs| <= x)
    ensures HeaderAt(Splice(m, a, bs), base, x) == HeaderAt(m, base, x)
  {
    var r := Splice(m, a, bs);
    assert r[x + 2..x + 4] == m[x + 2..x + 4];
    assert r[x + 8..x + 16] == m[x + 8..x + 16];
  }

  /** A write inside the header at `o` disturbs no header clear of it. */
  lemma WriteKeeps(m: seq<byte>, base: nat, o: nat, a: nat, bs: seq<byte>)
    requires o <= a && a + |bs| <= o + BLOCK_SIZE <= |m|
    ensures Kept(View(m, base), View(Splice(m, a, bs), base), o, BLOCK_SIZE)
  {
    hide HeaderAt;
    forall x: nat | x + BLOCK_SIZE <= |m| && Clear(x, o, BLOCK_SIZE)
      ensures HeaderAt(Splice(m, a, bs), base, x) == HeaderAt(m, base, x)
    {
      HeaderUntouched(m, base, x, a, bs);
    }
  }

  lemma WriteIsFree(m: seq<byte>, base: nat, o: nat, v: byte)
    requires o + BLOCK_SIZE <= |m| && v < 2
    ensures HeaderAt(Splice(m, o, [v]), base, o) == HeaderAt(m, base, o).(isF := v)
  {
    var r := Splice(m, o, [v]);
    assert r[o + 2..o + 4] == m[o + 2..o + 4];
    assert r[o + 8..o + 16] == m[o + 8..o + 16];
  }

  lemma WriteSize(m: seq<byte>, base: nat, o: nat, v: nat)
    requires o + BLOCK_SIZE <= |m| && v < USHORT
    ensures HeaderAt(Store(m, o + 2, 2, v), base, o) == HeaderAt(m, base, o).(size := v)
  {
    var r := Store(m, o + 2, 2, v);
    Pow256Small();
    LoadStored(m, o + 2, 2, v);
    assert r[o + 8..o + 16] == m[o + 8..o + 16];
  }

  lemma WriteNext(m: seq<byte>, base: nat, o: nat, ptr: nat)
    requires o + BLOCK_SIZE <= |m| && ptr < SIZE_T
    ensures HeaderAt(Store(m, o + 8, 8, ptr), base, o)
         == HeaderAt(m, base, o).(next := if ptr == 0 then -1 else ptr - base)
  {
    var r := Store(m, o + 8, 8, ptr);
    Pow256Small();
    LoadStored(m, o + 8, 8, ptr);
    assert r[o + 2..o + 4] == m[o + 2..o + 4];
  }

  lemma PayloadWriteLinked(m: seq<byte>, base: nat, bs: seq<Block>, k: nat, off: nat, data: seq<byte>)
    requires |m| == MAX_MEMORY && Heap(bs, BLOCK_SIZE, MAX_MEMORY) && Linked(View(m, base), bs) && k < |bs|
    requires bs[k].addr + BLOCK_SIZE <= off && off + |data| <= bs[k].addr + BLOCK_SIZE + bs[k].size
    requires off + |data| <= |m|
    ensures Linked(View(Splice(m, off, data), base), bs)
  {
    hide Linked, Heap, HeaderAt;
    var hs, hs' := View(m, base), View(Splice(m, off, data), base);
    forall i | 0 <= i < |bs| ensures Same(hs, hs', bs[i]) {
      HeaderOf(hs, bs, i, BLOCK_SIZE, MAX_MEMORY);
      if i != k { HeapApart(bs, i, k, BLOCK_SIZE, MAX_MEMORY); }
      HeaderUntouched(m, base, bs[i].addr, off, data);
    }
    LinkSame(hs, hs', bs);
  }

  predicate InMemorySpace(off: int) {
    0 <= off <= MAX_MEMORY - 1
  }

  /** The heap after `myfree` of the address at arena offset `off`. */
  ghost function FreeSpec(bs: seq<Block>, off: int): seq<Block>
  {
    if InMemorySpace(off) && off >= BLOCK_SIZE then Step(bs, Release(off - BLOCK_SIZE), BLOCK_SIZE) else bs
  }

  datatype Outcome = Freed | AlreadyFree | NotOurs | NullDereference

  class Arena {
    const base: nat
    const myblock: array<byte>
    var firstMalloc: bool
    var rootBlock: nat
    ghost var blocks: seq<Block>

    ghost predicate Valid()
      reads this, myblock
    {
      && myblock.Length == MAX_MEMORY
      && 0 < base && base + MAX_MEMORY < SIZE_T
      && (firstMalloc ==> rootBlock == 0 && blocks == Fresh(BLOCK_SIZE, MAX_MEMORY))
      && (!firstMalloc ==> rootBlock == base && Linked(View(myblock[..], base), blocks))
      && Heap(blocks, BLOCK_SIZE, MAX_MEMORY)
    }

    constructor (base: nat)
      requires 0 < base && base + MAX_MEMORY < SIZE_T
      ensures Valid() && firstMalloc && this.base == base && fresh(myblock)
    {
      this.base := base;
      myblock := new byte[MAX_MEMORY](_ => 0);
      firstMalloc := true;
      rootBlock := 0;
      blocks := Fresh(BLOCK_SIZE, MAX_MEMORY);
    }

    /** The header at `o` is now `hd`, and nothing outside its 16 bytes changed. */
    twostate predicate HeaderSet(o: nat, hd: Header)
      reads myblock
    {
      && o in View(myblock[..], base) && View(myblock[..], base)[o] == hd
      && Kept(old(View(myblock[..], base)), View(myblock[..], base), o, BLOCK_SIZE)
      && OnlyWithin(myblock, o, o + BLOCK_SIZE)
    }

    method SetIsFree(o: nat, v: bool)
      requires o + BLOCK_SIZE <= myblock.Length
      modifies myblock
      ensures HeaderSet(o, old(View(myblock[..], base)[o]).(isF := if v then 1 else 0))
    {
      ghost var m := myblock[..];
      Write(myblock, o, [if v then 1 else 0]);
      WriteIsFree(m, base, o, if v then 1 else 0);
      WriteKeeps(m, base, o, o, [if v then 1 else 0]);
    }

    method SetSize(o: nat, v: nat)
      requires o + BLOCK_SIZE <= myblock.Length && v < USHORT
      modifies myblock
      ensures HeaderSet(o, old(View(myblock[..], base)[o]).(size := v))
    {
      ghost var m := myblock[..];
      Write(myblock, o + 2, Encode(v, 2));
      WriteSize(m, base, o, v);
      WriteKeeps(m, base, o, o + 2, Encode(v, 2));
    }

    method SetNext(o: nat, ptr: nat)
      requires o + BLOCK_SIZE <= myblock.Length && ptr < SIZE_T
      modifies myblock
      ensures HeaderSet(o, old(View(myblock[..], base)[o]).(next := if ptr == 0 then -1 else ptr - base))
    {
      ghost var m := myblock[..];
      Write(myblock, o + 8, Encode(ptr, 8));
      WriteNext(m, base, o, ptr);
      WriteKeeps(m, base, o, o + 8, Encode(ptr, 8));
    }

    method PutHeader(o: nat, isFree: bool, size: nat, ptr: nat)
      requires o + BLOCK_SIZE <= myblock.Length && size < USHORT && ptr < SIZE_T
      modifies myblock
      ensures HeaderSet(o, Header(if isFree then 1 else 0, size, if ptr == 0 then -1 else ptr - base))
    {
      hide View, HeaderAt;
      SetIsFree(o, isFree);
      SetSize(o, size);
      SetNext(o, ptr);
    }

    method InitializeRoot()
      requires Valid() && firstMalloc
      modifies this, myblock
      ensures Valid() && !firstMalloc && blocks == old(blocks)
    {
      rootBlock := base;
      PutHeader(0, true, (MAX_MEMORY - BLOCK_SIZE) % USHORT, 0);
      firstMalloc := false;
    }

    method ReadHeader(ptr: nat) returns (hd: Header)
      requires base <= ptr && ptr + BLOCK_SIZE <= base + myblock.Length
      ensures hd == View(myblock[..], base)[ptr - base]
    {
      hd := HeaderAt(myblock[..], base, ptr - base);
    }

    /** An exact fit: the block at `current` only becomes taken. */
    method TakeWhole(current: nat, ghost k: nat)
      requires Valid() && !firstMalloc && k < |blocks| && current == base + blocks[k].addr && blocks[k].free
      modifies this`blocks, myblock
      ensures Valid() && blocks == TakeAt(old(blocks), k, old(blocks)[k].size, BLOCK_SIZE)
      ensures OnlyWithin(myblock, current - base, current - base + BLOCK_SIZE)
      ensures forall b :: b in Live(old(blocks)) ==> PayloadKept(myblock, b, BLOCK_SIZE)
    {
      hide View, HeaderAt, Linked, Heap;
      ghost var hs, bs := View(myblock[..], base), blocks;
      HeaderOf(hs, bs, k, BLOCK_SIZE, MAX_MEMORY);
      SetIsFree(current - base, false);
      LinkTakeWhole(hs, View(myblock[..], base), bs, k, BLOCK_SIZE, MAX_MEMORY);
      forall b | b in Live(bs) ensures PayloadKept(myblock, b, BLOCK_SIZE) {
        LiveClear(bs, k, k, b, BLOCK_SIZE, myblock.Length);
      }
      blocks := TakeAt(bs, k, bs[k].size, BLOCK_SIZE);
    }

    /** A larger fit: a new free block takes up the rest of the space. */
    method TakeSplit(current: nat, hd: Header, size: nat, sizeWithBlock: nat, ghost k: nat)
      requires Valid() && !firstMalloc && k < |blocks| && current == base + blocks[k].addr && blocks[k].free
      requires current - base in View(myblock[..], base) && hd == View(myblock[..], base)[current - base]
      requires sizeWithBlock == size + BLOCK_SIZE <= blocks[k].size
      modifies this`blocks, myblock
      ensures Valid() && blocks == TakeAt(old(blocks), k, size, BLOCK_SIZE)
      ensures OnlyWithin(myblock, current - base, current - base + BLOCK_SIZE + old(blocks)[k].size)
      ensures forall b :: b in Live(old(blocks)) ==> PayloadKept(myblock, b, BLOCK_SIZE)
    {
      hide View, HeaderAt, Linked, Heap;
      ghost var hs, bs := View(myblock[..], base), blocks;
      HeaderOf(hs, bs, k, BLOCK_SIZE, MAX_MEMORY);
      if k + 1 < |bs| { HeaderOf(hs, bs, k + 1, BLOCK_SIZE, MAX_MEMORY); }
      var newBlock := current + sizeWithBlock;
      PutHeader(newBlock - base, true, hd.size - sizeWithBlock, if hd.next == -1 then 0 else base + hd.next);
      ghost var mid := View(myblock[..], base);
      PutHeader(current - base, false, size, newBlock);
      LinkTakeSplit(hs, mid, View(myblock[..], base), bs, k, size, BLOCK_SIZE, MAX_MEMORY);
      forall b | b in Live(bs) ensures PayloadKept(myblock, b, BLOCK_SIZE) {
        LiveClear(bs, k, k, b, BLOCK_SIZE, myblock.Length);
      }
      blocks := TakeAt(bs, k, size, BLOCK_SIZE);
    }

    /** A client writing inside the payload of a live block changes nothing in the heap. */
    method ClientWrite(off: nat, bs: seq<byte>, ghost k: nat)
      requires Valid() && !firstMalloc && k < |blocks| && !blocks[k].free
      requires blocks[k].addr + BLOCK_SIZE <= off && off + |bs| <= blocks[k].addr + BLOCK_SIZE + blocks[k].size
      requires off + |bs| <= myblock.Length
      modifies myblock
      ensures Valid() && blocks == old(blocks) && myblock[..] == Splice(old(myblock[..]), off, bs)
    {
      ghost var m := myblock[..];
      Write(myblock, off, bs);
      PayloadWriteLinked(m, base, blocks, k, off, bs);
    }

    method MyMalloc(size: nat) returns (ptr: nat)
      requires Valid() && size < SIZE_T
      modifies this, myblock
      ensures Valid() && !firstMalloc
      ensures blocks == Step(old(blocks), Allocate(size), BLOCK_SIZE)
      ensures var k := FirstFit(old(blocks), size, BLOCK_SIZE);
              if k == |old(blocks)| then ptr == 0
              else ptr == base + old(blocks)[k].addr + BLOCK_SIZE
      ensures forall b :: b in Live(old(blocks)) ==> PayloadKept(myblock, b, BLOCK_SIZE)
    {
      hide View, HeaderAt, Linked, Heap, TakeAt, Step, FirstFit;
      if firstMalloc {
        InitializeRoot();
      }
      var current := rootBlock;
      var sizeWithBlock := (size + BLOCK_SIZE) % USHORT;
      ghost var k, m := 0, myblock[..];
      while current != 0
        invariant Valid() && !firstMalloc && blocks == old(blocks) && myblock[..] == m
        invariant Live(blocks) == {} || myblock[..] == old(myblock[..])
        invariant 0 <= k <= |blocks|
        invariant current == if k < |blocks| then base + blocks[k].addr else 0
        invariant forall i :: 0 <= i < k ==> !Fits(blocks[i], size, BLOCK_SIZE)
        decreases |blocks| - k
      {
        HeaderOf(View(m, base), blocks, k, BLOCK_SIZE, MAX_MEMORY);
        var hd := ReadHeader(current);
        if hd.isF == 0 || hd.size < size {
        } else if hd.size == size {
          Serves(blocks, size, BLOCK_SIZE, k);
          TakeWhole(current, k);
          return current + BLOCK_SIZE;
        } else if hd.size >= sizeWithBlock {
          Serves(blocks, size, BLOCK_SIZE, k);
          TakeSplit(current, hd, size, sizeWithBlock, k);
          return current + BLOCK_SIZE;
        }
        current := if hd.next == -1 then 0 else base + hd.next;
        k := k + 1;
      }
      Serves(blocks, size, BLOCK_SIZE, k);
      ptr := 0;
    }

    /** Mark block `k` free and absorb a free successor. */
    method FreeAndAbsorbNext(current: nat, ghost k: nat)
      requires Valid() && !firstMalloc && k < |blocks| && current == base + blocks[k].addr
      modifies myblock
      ensures var hi := FuseHi(blocks, k);
              HeaderSet(current - base, Header(1,
                blocks[k].size + (if hi == k + 2 then BLOCK_SIZE + blocks[k + 1].size else 0), After(blocks, hi)))
    {
      hide View, HeaderAt, Linked, Heap, Kept;
      ghost var hs, bs := View(myblock[..], base), blocks;
      HeaderOf(hs, bs, k, BLOCK_SIZE, MAX_MEMORY);
      SetIsFree(current - base, true);
      var hd := ReadHeader(current);
      if hd.next != -1 {
        ghost var mid := View(myblock[..], base);
        HeaderKept(hs, mid, bs, k, k + 1, BLOCK_SIZE, MAX_MEMORY);
        if k + 2 < |bs| { HeaderOf(hs, bs, k + 2, BLOCK_SIZE, MAX_MEMORY); }
        var next := ReadHeader(base + hd.next);
        if next.isF == 1 {
          SetSize(current - base, (hd.size + next.size + BLOCK_SIZE) % USHORT);
          KeptTwice(hs, mid, View(myblock[..], base), current - base, BLOCK_SIZE);
          mid := View(myblock[..], base);
          SetNext(current - base, if next.next == -1 then 0 else base + next.next);
          KeptTwice(hs, mid, View(myblock[..], base), current - base, BLOCK_SIZE);
        }
      }
    }

    /** The block at `current`, already free, joins a free predecessor at `previous`. */
    method JoinPrevious(previous: nat, current: nat)
      requires base <= previous && previous + BLOCK_SIZE <= current && current + BLOCK_SIZE <= base + myblock.Length
      requires var p, c := View(myblock[..], base)[previous - base], View(myblock[..], base)[current - base];
               p.size + c.size + BLOCK_SIZE < USHORT && (c.next == -1 || 0 < base + c.next < SIZE_T)
      modifies myblock
      ensures var p, c := old(View(myblock[..], base)[previous - base]), old(View(myblock[..], base)[current - base]);
              HeaderSet(previous - base, Header(p.isF, p.size + BLOCK_SIZE + c.size, c.next))
    {
      hide View, HeaderAt, Kept;
      ghost var hs := View(myblock[..], base);
      var prev := ReadHeader(previous);
      var hd := ReadHeader(current);
      SetSize(previous - base, (prev.size + hd.size + BLOCK_SIZE) % USHORT);
      ghost var mid := View(myblock[..], base);
      SetNext(previous - base, if hd.next == -1 then 0 else base + hd.next);
      KeptTwice(hs, mid, View(myblock[..], base), previous - base, BLOCK_SIZE);
    }

    /** Free block `k`, absorbing a free successor and then joining a free predecessor. */
    method MergeAt(previous: nat, current: nat, ghost k: nat)
      requires Valid() && !firstMalloc && k < |blocks| && !blocks[k].free
      requires current == base + blocks[k].addr && previous == if k > 0 then base + blocks[k - 1].addr else 0
      modifies this`blocks, myblock
      ensures Valid() && blocks == FreeAt(old(blocks), k, BLOCK_SIZE)
      ensures OnlyWithin(myblock, old(blocks)[FuseLo(old(blocks), k)].addr, old(blocks)[k].addr + BLOCK_SIZE)
    {
      hide View, HeaderAt, Linked, Heap, Kept, FreeAt;
      ghost var hs, bs := View(myblock[..], base), blocks;
      HeaderOf(hs, bs, k, BLOCK_SIZE, MAX_MEMORY);
      FreeAndAbsorbNext(current, k);
      ghost var mid := View(myblock[..], base);
      if k + 1 < |bs| { HeaderOf(hs, bs, k + 1, BLOCK_SIZE, MAX_MEMORY); }
      if previous != 0 {
        HeaderOf(hs, bs, k - 1, BLOCK_SIZE, MAX_MEMORY);
        HeaderKept(hs, mid, bs, k, k - 1, BLOCK_SIZE, MAX_MEMORY);
        var prev := ReadHeader(previous);
        if prev.isF == 1 {
          if FuseHi(bs, k) < |bs| { HeaderOf(hs, bs, FuseHi(bs, k), BLOCK_SIZE, MAX_MEMORY); }
          JoinPrevious(previous, current);
        }
      }
      LinkFree(hs, mid, View(myblock[..], base), bs, k, BLOCK_SIZE, MAX_MEMORY);
      blocks := FreeAt(bs, k, BLOCK_SIZE);
    }

    /** `freeAndMerge`: search the list for the block at `toFree` and release it. */
    method FreeAndMerge(toFree: int) returns (found: bool)
      requires Valid() && !firstMalloc
      requires forall i :: 0 <= i < |blocks| && base + blocks[i].addr == toFree ==> !blocks[i].free
      modifies this`blocks, myblock
      ensures Valid()
      ensures found <==> toFree >= base && LiveAt(old(blocks), toFree - base) < |old(blocks)|
      ensures blocks == if toFree >= base then Step(old(blocks), Release(toFree - base), BLOCK_SIZE) else old(blocks)
      ensures !found ==> myblock[..] == old(myblock[..])
      ensures forall b :: b in Live(old(blocks)) && base + b.addr != toFree ==> PayloadKept(myblock, b, BLOCK_SIZE)
    {
      hide View, HeaderAt, Linked, Heap, FreeAt;
      var previous, current := 0, rootBlock;
      ghost var k, m := 0, myblock[..];
      while current != 0
        invariant Valid() && !firstMalloc && blocks == old(blocks) && myblock[..] == m
        invariant 0 <= k <= |blocks|
        invariant current == if k < |blocks| then base + blocks[k].addr else 0
        invariant previous == if k > 0 then base + blocks[k - 1].addr else 0
        invariant forall i :: 0 <= i < k ==> base + blocks[i].addr != toFree
        invariant myblock[..] == old(myblock[..])
        decreases |blocks| - k
      {
        HeaderOf(View(m, base), blocks, k, BLOCK_SIZE, MAX_MEMORY);
        if current == toFree {
          LiveAtIs(blocks, k, BLOCK_SIZE, MAX_MEMORY);
          MergeAt(previous, current, k);
          forall b | b in Live(old(blocks)) && base + b.addr != toFree ensures PayloadKept(myblock, b, BLOCK_SIZE) {
            LiveClear(old(blocks), FuseLo(old(blocks), k), k, b, BLOCK_SIZE, MAX_MEMORY);
          }
          return true;
        }
        previous := current;
        var hd := ReadHeader(current);
        current := if hd.next == -1 then 0 else base + hd.next;
        k := k + 1;
      }
      found := false;
    }

    /** `myfree` of an arbitrary pointer. `stray` is the byte read as isFree when the presumed
        header lies below the arena. */
    method MyFree(ptr: int, stray: byte) returns (r: Outcome)
      requires Valid()
      modifies this`blocks, myblock
      ensures Valid() && blocks == if old(firstMalloc) then old(blocks) else FreeSpec(old(blocks), ptr - base)
      ensures !InMemorySpace(ptr - base) ==> r == NotOurs
      ensures r == Freed <==> InMemorySpace(ptr - base) && ptr - base >= BLOCK_SIZE && !firstMalloc
                              && LiveAt(old(blocks), ptr - base - BLOCK_SIZE) < |old(blocks)|
      ensures r != Freed ==> myblock[..] == old(myblock[..])
      ensures forall b :: b in Live(old(blocks)) && base + b.addr + BLOCK_SIZE != ptr ==>
        PayloadKept(myblock, b, BLOCK_SIZE)
      ensures r == NullDereference ==> firstMalloc
    {
      hide View, Linked, Heap, FreeAt;
      if !InMemorySpace(ptr - base) {
        return NotOurs;
      }
      var block := ptr - BLOCK_SIZE;
      var isFree := if block < base then stray != 0 else myblock[block - base] != 0;
      forall i | !firstMalloc && 0 <= i < |blocks| && base + blocks[i].addr == block
        ensures isFree == blocks[i].free
      {
        HeaderOf(View(myblock[..], base), blocks, i, BLOCK_SIZE, MAX_MEMORY);
        ViewAt(myblock[..], base, block - base);
      }
      if isFree {
        return AlreadyFree;
      }
      if rootBlock == 0 {
        return NullDereference;
      }
      var found := FreeAndMerge(block);
      r := if found then Freed else NotOurs;
    }
  }

  lemma ViewAt(m: seq<byte>, base: nat, o: nat)
    requires o + BLOCK_SIZE <= |m|
    ensures o in View(m, base) && View(m, base)[o] == HeaderAt(m, base, o)
  {
  }

  // ---- What the two calls mean together -------------------------------------------

  /** Freeing what `mymalloc(n)` returned restores the heap exactly when that address is
      inside the arena; only a zero-byte request served by a last, empty block is not. */
  lemma MallocThenFree(bs: seq<Block>, n: nat)
    requires Heap(bs, BLOCK_SIZE, MAX_MEMORY) && FirstFit(bs, n, BLOCK_SIZE) < |bs|
    ensures var o := bs[FirstFit(bs, n, BLOCK_SIZE)].addr;
      && (FreeSpec(Step(bs, Allocate(n), BLOCK_SIZE), o + BLOCK_SIZE) == bs <==>
        !(n == 0 && o == MAX_MEMORY - BLOCK_SIZE))
      && (n >= 1 ==> o < MAX_MEMORY - BLOCK_SIZE)
  {
    hide FreeAt, TakeAt, Step;
    AllocateThenRelease(bs, n, BLOCK_SIZE, MAX_MEMORY);
    Within(bs, 0, BLOCK_SIZE, MAX_MEMORY, FirstFit(bs, n, BLOCK_SIZE));
  }

  /** A run that does hand out the address one past the end, which `myfree` then rejects. */
  lemma ZeroBytesPastTheEnd()
    ensures var bs := Run(Fresh(BLOCK_SIZE, MAX_MEMORY), [Allocate(4968)], BLOCK_SIZE);
      && bs == [Block(0, 4968, false), Block(4984, 0, true)]
      && FirstFit(bs, 0, BLOCK_SIZE) == 1 && bs[1].addr + BLOCK_SIZE == MAX_MEMORY
      && FreeSpec(Step(bs, Allocate(0), BLOCK_SIZE), MAX_MEMORY) == [Block(0, 4968, false), Block(4984, 0, false)]
  {
    var f := Fresh(BLOCK_SIZE, MAX_MEMORY);
    FirstFitIs(f, 4968, BLOCK_SIZE, 0);
    var bs := [Block(0, 4968, false), Block(4984, 0, true)];
    assert TakeAt(f, 0, 4968, BLOCK_SIZE) == bs;
    assert Run(f, [Allocate(4968)], BLOCK_SIZE) == Run(Step(f, Allocate(4968), BLOCK_SIZE), [], BLOCK_SIZE) == bs;
    FirstFitIs(bs, 0, BLOCK_SIZE, 1);
  }

  // ---- Freeing everything ----------------------------------------------------------------------

  /** The empty block at the end of the arena, whose payload address is outside it. */
  const END: Block := Block(MAX_MEMORY - BLOCK_SIZE, 0, false)

  /** The heap after `myfree` of the payloads of the blocks `order`. */
  ghost function FreeAll(bs: seq<Block>, order: seq<Block>): seq<Block>
    decreases |order|
  {
    if order == [] then bs else FreeAll(FreeSpec(bs, order[0].addr + BLOCK_SIZE), order[1..])
  }

  /** `myfree` of a live block's payload releases the block unless it is the empty one at the end. */
  lemma FreeOne(bs: seq<Block>, b: Block)
    requires Heap(bs, BLOCK_SIZE, MAX_MEMORY) && b in Live(bs)
    ensures var r := FreeSpec(bs, b.addr + BLOCK_SIZE);
      Heap(r, BLOCK_SIZE, MAX_MEMORY) && Live(r) == if b == END then Live(bs) else Live(bs) - {b}
  {
    var k: nat :| k < |bs| && bs[k] == b;
    Within(bs, 0, BLOCK_SIZE, MAX_MEMORY, k);
    hide Heap, Step;
    if b != END { ReleaseStep(bs, b, BLOCK_SIZE, MAX_MEMORY); }
  }

  lemma DropOne<T>(live: set<T>, all: set<T>, rest: set<T>, x: T, e: T)
    requires all == rest + {x} && x !in rest && all <= live
    ensures var left := if x == e then live else live - {x};
      rest <= left && left - (rest - {e}) == live - (all - {e})
  {
  }

  lemma {:induction false} FreeAllLive(bs: seq<Block>, order: seq<Block>)
    requires Heap(bs, BLOCK_SIZE, MAX_MEMORY) && Elements(order) <= Live(bs) && Distinct(order)
    ensures Heap(FreeAll(bs, order), BLOCK_SIZE, MAX_MEMORY)
    ensures Live(FreeAll(bs, order)) == Live(bs) - (Elements(order) - {END})
    decreases |order|
  {
    if order == [] {
    } else {
      var b, rest := order[0], order[1..];
      assert FreeAll(bs, order) == FreeAll(FreeSpec(bs, b.addr + BLOCK_SIZE), rest);
      hide *;
      hide END;
      FirstReleased(bs, order, BLOCK_SIZE);
      FreeOne(bs, b);
      DropOne(Live(bs), Elements(order), Elements(rest), b, END);
      FreeAllLive(FreeSpec(bs, b.addr + BLOCK_SIZE), rest);
    }
  }

  /** Freeing every live block with `myfree`, in whatever order, gives the fresh heap if and only if the
      empty block at the end is not among them. */
  lemma FreeAllIff(bs: seq<Block>, order: seq<Block>)
    requires Heap(bs, BLOCK_SIZE, MAX_MEMORY) && Elements(order) == Live(bs) && Distinct(order)
    ensures FreeAll(bs, order) == Fresh(BLOCK_SIZE, MAX_MEMORY) <==> END !in Live(bs)
  {
    FreeAllLive(bs, order);
    var r := FreeAll(bs, order);
    hide FreeAll;
    if END !in Live(bs) {
      assert Live(r) == Live(Fresh(BLOCK_SIZE, MAX_MEMORY));
      Canonical(r, Fresh(BLOCK_SIZE, MAX_MEMORY), 0, BLOCK_SIZE, MAX_MEMORY);
    } else {
      assert END in Live(r) && END !in Live(Fresh(BLOCK_SIZE, MAX_MEMORY));
    }
  }
}
