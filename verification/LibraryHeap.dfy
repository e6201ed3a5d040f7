/** The library allocator of my_pthread/my_pthread.c (requests marked LIBRARYREQ): block
    headers are single packed words inside the managed bytes, with no stored next pointer. */
module LibraryHeap {
  import opened Bits
  import opened Bytes
  import opened BlockList
  import opened LinkedBlocks

  const BLOCK_SIZE: nat := 4
  const MAX_MEMORY: nat := 8388608
  const MAX_SIZE: nat := 0x100_0000
  const SIZE_T: nat := 0x1_0000_0000_0000_0000

  /** What the word `w` says as the header at offset `o`; the next block is found by its size. */
  function HeaderOfWord(o: nat, w: nat): Header {
    Header(GetBlockIsF(w), GetBlockSize(w), if GetBlockIsNext(w) == 0 then -1 else o + GetBlockSize(w) + BLOCK_SIZE)
  }

  /** Every header that can be decoded from the memory `m`. */
  ghost function View(m: seq<byte>): (hs: map<nat, Header>)
    ensures forall o: nat :: o in hs <==> o + BLOCK_SIZE <= |m|
  {
    map o: nat | o + BLOCK_SIZE <= |m| :: HeaderOfWord(o, Load(m, o, BLOCK_SIZE))
  }

  lemma ViewAt(m: seq<byte>, o: nat)
    requires o + BLOCK_SIZE <= |m|
    ensures o in View(m) && View(m)[o] == HeaderOfWord(o, Load(m, o, BLOCK_SIZE)) && Load(m, o, BLOCK_SIZE) < WORD
  {
  }

  lemma WordUntouched(m: seq<byte>, x: nat, a: nat, bs: seq<byte>)
    requires a + |bs| <= |m| && x + BLOCK_SIZE <= |m| && (x + BLOCK_SIZE <= a || a + |bs| <= x)
    ensures Load(Splice(m, a, bs), x, BLOCK_SIZE) == Load(m, x, BLOCK_SIZE)
  {
    assert Splice(m, a, bs)[x..x + BLOCK_SIZE] == m[x..x + BLOCK_SIZE];
  }

  lemma StoreWord(m: seq<byte>, o: nat, w: nat)
    requires o + BLOCK_SIZE <= |m| && w < WORD
    ensures var m' := Store(m, o, BLOCK_SIZE, w);
      o in View(m') && View(m')[o] == HeaderOfWord(o, w) && Kept(View(m), View(m'), o, BLOCK_SIZE)
  {
    hide HeaderOfWord, Load;
    var m' := Store(m, o, BLOCK_SIZE, w);
    Pow256Small();
    LoadStored(m, o, BLOCK_SIZE, w);
    forall x: nat | x + BLOCK_SIZE <= |m| && Clear(x, o, BLOCK_SIZE)
      ensures Load(m', x, BLOCK_SIZE) == Load(m, x, BLOCK_SIZE)
    {
      WordUntouched(m, x, o, Encode(w, BLOCK_SIZE));
    }
  }

  /** Changing the free mark changes only that. */
  lemma Marked(o: nat, w: nat, v: nat)
    requires w < WORD && v < 2
    ensures SetBlockIsF(w, v) < WORD && HeaderOfWord(o, SetBlockIsF(w, v)) == HeaderOfWord(o, w).(isF := v)
    ensures GetBlockIsNext(SetBlockIsF(w, v)) == GetBlockIsNext(w) < 0x10
  {
    hide SetBlockIsF, GetBlockIsF, GetBlockSize, GetBlockIsNext, Pack;
    var s, n, f := Unpack(w);
    SetBlockIsFIs(s, n, f, v);
    PackFields(s, n, f);
    PackFields(s, n, v);
  }

  /** Changing size and isNext keeps the mark; the next block follows the new size. */
  lemma Resized(o: nat, w: nat, size: nat, isNext: nat)
    requires w < WORD && size < MAX_SIZE && isNext < 0x10
    ensures var r := SetBlockIsNext(SetBlockSize(w, size), isNext);
      && r < WORD && GetBlockIsNext(r) == isNext
      && HeaderOfWord(o, r) == Header(GetBlockIsF(w), size, if isNext == 0 then -1 else o + size + BLOCK_SIZE)
  {
    hide SetBlockSize, SetBlockIsNext, GetBlockIsF, GetBlockSize, GetBlockIsNext, Pack;
    var s, n, f := Unpack(w);
    SetBlockSizeIs(s, n, f, size);
    SetBlockIsNextIs(size, n, f, isNext);
    PackFields(s, n, f);
    PackFields(size, isNext, f);
  }

  lemma PayloadWriteLinked(m: seq<byte>, bs: seq<Block>, k: nat, off: nat, data: seq<byte>)
    requires Heap(bs, BLOCK_SIZE, |m|) && Linked(View(m), bs) && k < |bs|
    requires bs[k].addr + BLOCK_SIZE <= off && off + |data| <= bs[k].addr + BLOCK_SIZE + bs[k].size
    requires off + |data| <= |m|
    ensures Linked(View(Splice(m, off, data)), bs)
  {
    hide Linked, Heap, HeaderOfWord, Load;
    var hs, hs' := View(m), View(Splice(m, off, data));
    forall i | 0 <= i < |bs| ensures Same(hs, hs', bs[i]) {
      HeaderOf(hs, bs, i, BLOCK_SIZE, |m|);
      if i != k { HeapApart(bs, i, k, BLOCK_SIZE, |m|); }
      WordUntouched(m, bs[i].addr, off, data);
    }
    LinkSame(hs, hs', bs);
  }

  datatype Outcome = Freed | AlreadyFree | NotOurs

  class Library {
    const memory: array<byte>
    ghost var blocks: seq<Block>

    ghost predicate Valid()
      reads this, memory
    {
      && BLOCK_SIZE <= memory.Length < MAX_SIZE
      && Heap(blocks, BLOCK_SIZE, memory.Length)
      && Linked(View(memory[..]), blocks)
    }

    /** The word at `o` is now `w`, and nothing outside its 4 bytes changed. */
    twostate predicate HeaderSet(o: nat, hd: Header)
      reads memory
    {
      && o in View(memory[..]) && View(memory[..])[o] == hd
      && Kept(old(View(memory[..])), View(memory[..]), o, BLOCK_SIZE)
      && OnlyWithin(memory, o, o + BLOCK_SIZE)
    }

    /** `initializeRoot` over memory that may hold anything. */
    constructor (memory: array<byte>)
      requires BLOCK_SIZE <= memory.Length < MAX_SIZE
      modifies memory
      ensures Valid() && this.memory == memory && blocks == Fresh(BLOCK_SIZE, memory.Length)
    {
      hide *;
      this.memory := memory;
      blocks := Fresh(BLOCK_SIZE, memory.Length);
      new;
      InitializeRoot();
    }

    method InitializeRoot()
      requires BLOCK_SIZE <= memory.Length < MAX_SIZE && blocks == Fresh(BLOCK_SIZE, memory.Length)
      modifies memory
      ensures Valid()
    {
      hide View, Linked, Heap, GetBlockIsF, GetBlockSize, GetBlockIsNext, SetBlockIsF, SetBlockSize, SetBlockIsNext,
        Kept;
      var w := ReadWord(0);
      Marked(0, w, 1);
      w := SetBlockIsF(w, 1);
      Resized(0, w, memory.Length - BLOCK_SIZE, 0);
      w := SetBlockIsNext(SetBlockSize(w, memory.Length - BLOCK_SIZE), 0);
      PutWord(0, w);
      LinkFresh(View(memory[..]), BLOCK_SIZE, memory.Length);
    }

    method ReadWord(o: nat) returns (w: nat)
      requires o + BLOCK_SIZE <= memory.Length
      ensures w < WORD && View(memory[..])[o] == HeaderOfWord(o, w)
    {
      w := Load(memory[..], o, BLOCK_SIZE);
      ViewAt(memory[..], o);
    }

    method PutWord(o: nat, w: nat)
      requires o + BLOCK_SIZE <= memory.Length && w < WORD
      modifies memory
      ensures HeaderSet(o, HeaderOfWord(o, w))
    {
      hide View, HeaderOfWord, Kept;
      ghost var m := memory[..];
      Write(memory, o, Encode(w, BLOCK_SIZE));
      StoreWord(m, o, w);
    }

    method TakeWhole(current: nat, ghost k: nat)
      requires Valid() && k < |blocks| && current == blocks[k].addr && blocks[k].free
      modifies this`blocks, memory
      ensures Valid() && blocks == TakeAt(old(blocks), k, old(blocks)[k].size, BLOCK_SIZE)
      ensures OnlyWithin(memory, current, current + BLOCK_SIZE)
      ensures forall b :: b in Live(old(blocks)) ==> PayloadKept(memory, b, BLOCK_SIZE)
    {
      hide View, HeaderOfWord, Linked, Heap, Kept, TakeAt, SetBlockIsF;
      ghost var hs, bs := View(memory[..]), blocks;
      HeaderOf(hs, bs, k, BLOCK_SIZE, memory.Length);
      var w := ReadWord(current);
      Marked(current, w, 0);
      PutWord(current, SetBlockIsF(w, 0));
      LinkTakeWhole(hs, View(memory[..]), bs, k, BLOCK_SIZE, memory.Length);
      forall b | b in Live(bs) ensures PayloadKept(memory, b, BLOCK_SIZE) {
        LiveClear(bs, k, k, b, BLOCK_SIZE, memory.Length);
      }
      blocks := TakeAt(bs, k, bs[k].size, BLOCK_SIZE);
    }

    method TakeSplit(current: nat, size: nat, sizeWithBlock: nat, ghost k: nat)
      requires Valid() && k < |blocks| && current == blocks[k].addr && blocks[k].free
      requires sizeWithBlock == size + BLOCK_SIZE <= blocks[k].size
      modifies this`blocks, memory
      ensures Valid() && blocks == TakeAt(old(blocks), k, size, BLOCK_SIZE)
      ensures OnlyWithin(memory, current, current + BLOCK_SIZE + old(blocks)[k].size)
      ensures forall b :: b in Live(old(blocks)) ==> PayloadKept(memory, b, BLOCK_SIZE)
    {
      hide View, Linked, Heap, Kept, TakeAt, SetBlockIsF, SetBlockSize, SetBlockIsNext, GetBlockIsF, GetBlockSize,
        GetBlockIsNext;
      ghost var hs, bs := View(memory[..]), blocks;
      HeaderOf(hs, bs, k, BLOCK_SIZE, memory.Length);
      var newBlock := current + sizeWithBlock;
      var c := ReadWord(current);
      var w := ReadWord(newBlock);
      Marked(newBlock, w, 1);
      Marked(current, c, 0);
      w := SetBlockIsF(w, 1);
      Resized(newBlock, w, GetBlockSize(c) - sizeWithBlock, GetBlockIsNext(c));
      w := SetBlockIsNext(SetBlockSize(w, GetBlockSize(c) - sizeWithBlock), GetBlockIsNext(c));
      PutWord(newBlock, w);
      ghost var mid := View(memory[..]);
      Resized(current, c, size, 1);
      c := SetBlockIsNext(SetBlockSize(c, size), 1);
      Marked(current, c, 0);
      PutWord(current, SetBlockIsF(c, 0));
      LinkTakeSplit(hs, mid, View(memory[..]), bs, k, size, BLOCK_SIZE, memory.Length);
      forall b | b in Live(bs) ensures PayloadKept(memory, b, BLOCK_SIZE) {
        LiveClear(bs, k, k, b, BLOCK_SIZE, memory.Length);
      }
      blocks := TakeAt(bs, k, size, BLOCK_SIZE);
    }

    /** A client writing inside the payload of a live block changes nothing in the heap. */
    method ClientWrite(off: nat, bs: seq<byte>, ghost k: nat)
      requires Valid() && k < |blocks| && !blocks[k].free
      requires blocks[k].addr + BLOCK_SIZE <= off && off + |bs| <= blocks[k].addr + BLOCK_SIZE + blocks[k].size
      requires off + |bs| <= memory.Length
      modifies memory
      ensures Valid() && blocks == old(blocks) && memory[..] == Splice(old(memory[..]), off, bs)
    {
      ghost var m := memory[..];
      Write(memory, off, bs);
      PayloadWriteLinked(m, blocks, k, off, bs);
    }

    /** The LIBRARYREQ branch of `myallocate`; -1 stands for NULL. */
    method Allocate(size: nat) returns (ptr: int)
      requires Valid() && size < SIZE_T
      modifies this`blocks, memory
      ensures Valid() && blocks == Step(old(blocks), Event.Allocate(size), BLOCK_SIZE)
      ensures var k := FirstFit(old(blocks), size, BLOCK_SIZE);
              ptr == if k == |old(blocks)| then -1 else old(blocks)[k].addr + BLOCK_SIZE
      ensures forall b :: b in Live(old(blocks)) ==> PayloadKept(memory, b, BLOCK_SIZE)
    {
      hide View, Linked, Heap, TakeAt, Step, FirstFit, GetBlockIsF, GetBlockSize, GetBlockIsNext;
      var sizeWithBlock := ((size + BLOCK_SIZE) % SIZE_T) % WORD;
      var current: int := 0;
      ghost var k := 0;
      while current != -1
        invariant Valid() && blocks == old(blocks) && memory[..] == old(memory[..])
        invariant 0 <= k <= |blocks|
        invariant current == if k < |blocks| then blocks[k].addr else -1
        invariant forall i :: 0 <= i < k ==> !Fits(blocks[i], size, BLOCK_SIZE)
        decreases |blocks| - k
      {
        HeaderOf(View(memory[..]), blocks, k, BLOCK_SIZE, memory.Length);
        var w := ReadWord(current);
        if GetBlockIsF(w) == 0 || GetBlockSize(w) < size {
        } else if GetBlockSize(w) == size {
          Serves(blocks, size, BLOCK_SIZE, k);
          TakeWhole(current, k);
          return current + BLOCK_SIZE;
        } else if GetBlockSize(w) >= sizeWithBlock {
          Serves(blocks, size, BLOCK_SIZE, k);
          TakeSplit(current, size, sizeWithBlock, k);
          return current + BLOCK_SIZE;
        }
        current := HeaderOfWord(current, w).next;
        k := k + 1;
      }
      Serves(blocks, size, BLOCK_SIZE, k);
      ptr := -1;
    }

    /** Mark block `k` free and absorb a free successor. */
    method FreeAndAbsorbNext(current: nat, ghost k: nat)
      requires Valid() && k < |blocks| && current == blocks[k].addr
      modifies memory
      ensures var hi := FuseHi(blocks, k);
              HeaderSet(current, Header(1,
                blocks[k].size + (if hi == k + 2 then BLOCK_SIZE + blocks[k + 1].size else 0), After(blocks, hi)))
    {
      hide View, Linked, Heap, Kept, SetBlockIsF, SetBlockSize, SetBlockIsNext, GetBlockIsF, GetBlockSize,
        GetBlockIsNext;
      ghost var hs, bs := View(memory[..]), blocks;
      HeaderOf(hs, bs, k, BLOCK_SIZE, memory.Length);
      var w := ReadWord(current);
      Marked(current, w, 1);
      w := SetBlockIsF(w, 1);
      PutWord(current, w);
      var next := HeaderOfWord(current, w).next;
      if next != -1 {
        ghost var mid := View(memory[..]);
        HeaderKept(hs, mid, bs, k, k + 1, BLOCK_SIZE, memory.Length);
        if k + 2 < |bs| { HeaderOf(hs, bs, k + 1, BLOCK_SIZE, memory.Length); }
        var n := ReadWord(next);
        if GetBlockIsF(n) == 1 {
          Marked(next, n, 0);
          Resized(current, w, GetBlockSize(w) + GetBlockSize(n) + BLOCK_SIZE, GetBlockIsNext(n));
          w := SetBlockIsNext(SetBlockSize(w, GetBlockSize(w) + GetBlockSize(n) + BLOCK_SIZE), GetBlockIsNext(n));
          PutWord(current, w);
          KeptTwice(hs, mid, View(memory[..]), current, BLOCK_SIZE);
        }
      }
    }

    /** Free block `k`, absorbing a free successor and then joining a free predecessor. */
    method MergeAt(previous: int, current: nat, ghost k: nat)
      requires Valid() && k < |blocks| && !blocks[k].free
      requires current == blocks[k].addr && previous == if k > 0 then blocks[k - 1].addr else -1
      modifies this`blocks, memory
      ensures Valid() && blocks == FreeAt(old(blocks), k, BLOCK_SIZE)
      ensures OnlyWithin(memory, old(blocks)[FuseLo(old(blocks), k)].addr, old(blocks)[k].addr + BLOCK_SIZE)
    {
      hide View, Linked, Heap, Kept, FreeAt, SetBlockIsF, SetBlockSize, SetBlockIsNext, GetBlockIsF, GetBlockSize,
        GetBlockIsNext;
      ghost var hs, bs := View(memory[..]), blocks;
      HeaderOf(hs, bs, k, BLOCK_SIZE, memory.Length);
      FreeAndAbsorbNext(current, k);
      ghost var mid := View(memory[..]);
      if k + 1 < |bs| { HeaderOf(hs, bs, k + 1, BLOCK_SIZE, memory.Length); }
      if previous != -1 {
        HeaderOf(hs, bs, k - 1, BLOCK_SIZE, memory.Length);
        HeaderKept(hs, mid, bs, k, k - 1, BLOCK_SIZE, memory.Length);
        var p := ReadWord(previous);
        if GetBlockIsF(p) == 1 {
          var w := ReadWord(current);
          Marked(current, w, 1);
          Resized(previous, p, GetBlockSize(w) + GetBlockSize(p) + BLOCK_SIZE, GetBlockIsNext(w));
          PutWord(previous, SetBlockIsNext(SetBlockSize(p, GetBlockSize(w) + GetBlockSize(p) + BLOCK_SIZE),
            GetBlockIsNext(w)));
        }
      }
      LinkFree(hs, mid, View(memory[..]), bs, k, BLOCK_SIZE, memory.Length);
      blocks := FreeAt(bs, k, BLOCK_SIZE);
    }

    /** The LIBRARYREQ branch of `freeAndMerge`. */
    method FreeAndMerge(toFree: int) returns (found: bool)
      requires Valid()
      requires forall i :: 0 <= i < |blocks| && blocks[i].addr == toFree ==> !blocks[i].free
      modifies this`blocks, memory
      ensures Valid()
      ensures found <==> toFree >= 0 && LiveAt(old(blocks), toFree) < |old(blocks)|
      ensures blocks == if toFree >= 0 then Step(old(blocks), Release(toFree), BLOCK_SIZE) else old(blocks)
      ensures !found ==> memory[..] == old(memory[..])
      ensures forall b :: b in Live(old(blocks)) && b.addr != toFree ==> PayloadKept(memory, b, BLOCK_SIZE)
    {
      hide View, Linked, Heap, FreeAt, GetBlockIsF, GetBlockSize, GetBlockIsNext;
      var previous: int, current: int := -1, 0;
      ghost var k := 0;
      while current != -1
        invariant Valid() && blocks == old(blocks) && memory[..] == old(memory[..])
        invariant 0 <= k <= |blocks|
        invariant current == if k < |blocks| then blocks[k].addr else -1
        invariant previous == if k > 0 then blocks[k - 1].addr else -1
        invariant forall i :: 0 <= i < k ==> blocks[i].addr != toFree
        decreases |blocks| - k
      {
        HeaderOf(View(memory[..]), blocks, k, BLOCK_SIZE, memory.Length);
        if current == toFree {
          LiveAtIs(blocks, k, BLOCK_SIZE, memory.Length);
          MergeAt(previous, current, k);
          forall b | b in Live(old(blocks)) && b.addr != toFree ensures PayloadKept(memory, b, BLOCK_SIZE) {
            LiveClear(old(blocks), FuseLo(old(blocks), k), k, b, BLOCK_SIZE, memory.Length);
          }
          return true;
        }
        previous := current;
        var w := ReadWord(current);
        current := HeaderOfWord(current, w).next;
        k := k + 1;
      }
      found := false;
    }

    /** The LIBRARYREQ branch of `mydeallocate`. The address test admits all of memory, so the
        presumed header may lie outside the library region; `stray` is the word read there. */
    method Deallocate(ptr: int, stray: nat) returns (r: Outcome)
      requires Valid()
      modifies this`blocks, memory
      ensures Valid() && blocks == if BLOCK_SIZE <= ptr < MAX_MEMORY
                                   then Step(old(blocks), Release(ptr - BLOCK_SIZE), BLOCK_SIZE) else old(blocks)
      ensures r == Freed <==> BLOCK_SIZE <= ptr < MAX_MEMORY && LiveAt(old(blocks), ptr - BLOCK_SIZE) < |old(blocks)|
      ensures r != Freed ==> memory[..] == old(memory[..])
      ensures forall b :: b in Live(old(blocks)) && b.addr + BLOCK_SIZE != ptr ==> PayloadKept(memory, b, BLOCK_SIZE)
    {
      hide View, Linked, Heap, FreeAt, GetBlockSize, GetBlockIsNext, GetBlockIsF;
      if !(0 <= ptr < MAX_MEMORY) {
        return NotOurs;
      }
      var block := ptr - BLOCK_SIZE;
      var w := stray;
      if 0 <= block && block + BLOCK_SIZE <= memory.Length {
        w := ReadWord(block);
      }
      forall i | 0 <= i < |blocks| && blocks[i].addr == block
        ensures GetBlockIsF(w) == Mark(blocks[i])
      {
        HeaderOf(View(memory[..]), blocks, i, BLOCK_SIZE, memory.Length);
      }
      if GetBlockIsF(w) == 1 {
        return AlreadyFree;
      }
      var found := FreeAndMerge(block);
      r := if found then Freed else NotOurs;
    }
  }

  /** Freeing what a request returned restores the heap, whatever the request: the address is
      never past the end of memory. */
  lemma AllocateThenDeallocate(bs: seq<Block>, n: nat, t: nat)
    requires BLOCK_SIZE <= t < MAX_MEMORY && Heap(bs, BLOCK_SIZE, t) && FirstFit(bs, n, BLOCK_SIZE) < |bs|
    ensures var ptr := bs[FirstFit(bs, n, BLOCK_SIZE)].addr + BLOCK_SIZE;
      && BLOCK_SIZE <= ptr < MAX_MEMORY
      && Step(Step(bs, Event.Allocate(n), BLOCK_SIZE), Release(ptr - BLOCK_SIZE), BLOCK_SIZE) == bs
  {
    hide Step;
    AllocateThenRelease(bs, n, BLOCK_SIZE, t);
    Within(bs, 0, BLOCK_SIZE, t, FirstFit(bs, n, BLOCK_SIZE));
  }
}
