/** The abstract heap shared by both allocators of the repository: a list of blocks in
    address order, each a header of `h` bytes followed by `size` payload bytes. Allocation
    is first fit with a split, release merges with a free neighbour on either side. */
module BlockList {

  datatype Block = Block(addr: nat, size: nat, free: bool)

  /** The blocks follow one another without gap or overlap from address `a` to `t`. */
  ghost predicate Tiled(bs: seq<Block>, a: nat, h: nat, t: nat)
  {
    && (bs == [] ==> a == t)
    && (bs != [] ==> bs[0].addr == a && bs[|bs| - 1].addr + h + bs[|bs| - 1].size == t)
    && forall i, j :: 0 <= i && j == i + 1 && j < |bs| ==> bs[j].addr == bs[i].addr + h + bs[i].size
  }

  ghost predicate Coalesced(bs: seq<Block>)
  {
    forall i, j :: 0 <= i && j == i + 1 && j < |bs| ==> !(bs[i].free && bs[j].free)
  }

  ghost predicate Heap(bs: seq<Block>, h: nat, t: nat)
    ensures Heap(bs, h, t) ==> bs != [] && bs[0].addr == 0
  {
    0 < h <= t && bs != [] && Tiled(bs, 0, h, t) && Coalesced(bs)
  }

  ghost function Fresh(h: nat, t: nat): seq<Block>
    requires h <= t
  {
    [Block(0, t - h, true)]
  }

  ghost function Live(bs: seq<Block>): set<Block>
  {
    set b | b in bs && !b.free
  }

  ghost predicate Fits(b: Block, n: nat, h: nat)
  {
    b.free && (b.size == n || b.size >= n + h)
  }

  /** Index of the first block that can serve a request of `n` bytes, `|bs|` if none can. */
  ghost function FirstFit(bs: seq<Block>, n: nat, h: nat): (k: nat)
    ensures k <= |bs|
    ensures forall i :: 0 <= i < k ==> !Fits(bs[i], n, h)
    ensures k < |bs| ==> Fits(bs[k], n, h)
  {
    if bs == [] then 0 else if Fits(bs[0], n, h) then 0 else 1 + FirstFit(bs[1..], n, h)
  }

  /** A scan that stopped at `k` found the first fit. */
  lemma FirstFitIs(bs: seq<Block>, n: nat, h: nat, k: nat)
    requires k <= |bs| && (k < |bs| ==> Fits(bs[k], n, h))
    requires forall i :: 0 <= i < k ==> !Fits(bs[i], n, h)
    ensures FirstFit(bs, n, h) == k
  {
  }

  /** Block `k` replaced by the two blocks `x` and `y`. */
  ghost function Split(bs: seq<Block>, k: nat, x: Block, y: Block): (r: seq<Block>)
    requires k < |bs|
    ensures |r| == |bs| + 1 && r[k] == x && r[k + 1] == y
    ensures forall i :: 0 <= i < k ==> r[i] == bs[i]
    ensures forall i :: k + 1 < i < |r| ==> r[i] == bs[i - 1]
  {
    bs[..k] + [x, y] + bs[k + 1..]
  }

  ghost function TakeAt(bs: seq<Block>, k: nat, n: nat, h: nat): seq<Block>
    requires k < |bs| && Fits(bs[k], n, h)
  {
    var b := bs[k];
    if b.size == n then bs[k := Block(b.addr, n, false)]
    else Split(bs, k, Block(b.addr, n, false), Block(b.addr + h + n, b.size - n - h, true))
  }

  /** The run of blocks `[lo, hi)` replaced by the single block `b`. */
  ghost function Fuse(bs: seq<Block>, lo: nat, hi: nat, b: Block): (r: seq<Block>)
    requires lo < hi <= |bs|
    ensures |r| == |bs| - (hi - lo) + 1 && r[lo] == b
    ensures forall i :: 0 <= i < lo ==> r[i] == bs[i]
    ensures forall i :: lo < i < |r| ==> r[i] == bs[i + (hi - lo) - 1]
  {
    bs[..lo] + [b] + bs[hi..]
  }

  /** First and one-past-last block of the run that is fused when block `k` is freed. */
  ghost function FuseLo(bs: seq<Block>, k: nat): nat
    requires k < |bs|
  {
    if k > 0 && bs[k - 1].free then k - 1 else k
  }

  ghost function FuseHi(bs: seq<Block>, k: nat): nat
    requires k < |bs|
  {
    if k + 1 < |bs| && bs[k + 1].free then k + 2 else k + 1
  }

  /** Block `k` freed and merged with a free successor and a free predecessor. */
  ghost function FreeAt(bs: seq<Block>, k: nat, h: nat): seq<Block>
    requires k < |bs|
  {
    var lo, hi := FuseLo(bs, k), FuseHi(bs, k);
    var size := bs[k].size + (if hi == k + 2 then h + bs[k + 1].size else 0);
    Fuse(bs, lo, hi, Block(bs[lo].addr, if lo < k then bs[lo].size + h + size else size, true))
  }

  lemma {:induction false} Apart(bs: seq<Block>, a: nat, h: nat, t: nat, i: nat, j: nat)
    requires Tiled(bs, a, h, t) && i < j < |bs|
    ensures bs[i].addr + h + bs[i].size <= bs[j].addr
    decreases j - i
  {
    if i + 1 == j {
    } else {
      Apart(bs, a, h, t, i + 1, j);
    }
  }

  lemma {:induction false} Within(bs: seq<Block>, a: nat, h: nat, t: nat, i: nat)
    requires Tiled(bs, a, h, t) && i < |bs|
    ensures a <= bs[i].addr && bs[i].addr + h + bs[i].size <= t
  {
    if i > 0 { Apart(bs, a, h, t, 0, i); }
    if i < |bs| - 1 { Apart(bs, a, h, t, i, |bs| - 1); }
  }

  lemma HeapApart(bs: seq<Block>, i: nat, k: nat, h: nat, t: nat)
    requires Heap(bs, h, t) && i < |bs| && k < |bs| && i != k
    ensures bs[i].addr + h + bs[i].size <= bs[k].addr || bs[k].addr + h + bs[k].size <= bs[i].addr
  {
    if i < k { Apart(bs, 0, h, t, i, k); } else { Apart(bs, 0, h, t, k, i); }
  }

  /** Headers and payloads of distinct blocks never overlap, and all lie in the arena. */
  lemma Layout(bs: seq<Block>, a: nat, h: nat, t: nat)
    requires Tiled(bs, a, h, t)
    ensures forall i, j :: 0 <= i < j < |bs| ==> bs[i].addr + h + bs[i].size <= bs[j].addr
    ensures forall i :: 0 <= i < |bs| ==> a <= bs[i].addr && bs[i].addr + h + bs[i].size <= t
  {
    forall i, j | 0 <= i < j < |bs| ensures bs[i].addr + h + bs[i].size <= bs[j].addr {
      Apart(bs, a, h, t, i, j);
    }
    forall i | 0 <= i < |bs| ensures a <= bs[i].addr && bs[i].addr + h + bs[i].size <= t {
      Within(bs, a, h, t, i);
    }
  }

  lemma SplitKeepsHeap(bs: seq<Block>, k: nat, x: Block, y: Block, h: nat, t: nat)
    requires Heap(bs, h, t) && k < |bs| && bs[k].free && !x.free
    requires x.addr == bs[k].addr && y.addr == x.addr + h + x.size
    requires y.addr + y.size == bs[k].addr + bs[k].size
    ensures Heap(Split(bs, k, x, y), h, t)
  {
    var r := Split(bs, k, x, y);
    forall i, j | 0 <= i && j == i + 1 && j < |r|
      ensures r[j].addr == r[i].addr + h + r[i].size && !(r[i].free && r[j].free)
    {
      if j < k {
      } else if j == k {
        assert r[i] == bs[i];
      } else if i == k + 1 {
        assert r[j] == bs[k + 1];
      } else if i > k + 1 {
        assert r[i] == bs[i - 1] && r[j] == bs[i];
      }
    }
  }

  lemma TakeKeepsHeap(bs: seq<Block>, k: nat, n: nat, h: nat, t: nat)
    requires Heap(bs, h, t) && k < |bs| && Fits(bs[k], n, h)
    ensures Heap(TakeAt(bs, k, n, h), h, t)
  {
    var r := TakeAt(bs, k, n, h);
    if bs[k].size != n {
      SplitKeepsHeap(bs, k, r[k], r[k + 1], h, t);
    }
  }

  lemma FuseTiled(bs: seq<Block>, lo: nat, hi: nat, b: Block, a: nat, h: nat, t: nat)
    requires Tiled(bs, a, h, t) && lo < hi <= |bs|
    requires b.addr == bs[lo].addr && b.addr + b.size == bs[hi - 1].addr + bs[hi - 1].size
    ensures Tiled(Fuse(bs, lo, hi, b), a, h, t)
  {
  }

  lemma FuseCoalesced(bs: seq<Block>, lo: nat, hi: nat, b: Block)
    requires Coalesced(bs) && lo < hi <= |bs|
    requires lo > 0 ==> !bs[lo - 1].free
    requires hi < |bs| ==> !bs[hi].free
    ensures Coalesced(Fuse(bs, lo, hi, b))
  {
  }

  lemma FreeKeepsHeap(bs: seq<Block>, k: nat, h: nat, t: nat)
    requires Heap(bs, h, t) && k < |bs| && !bs[k].free
    ensures Heap(FreeAt(bs, k, h), h, t)
  {
    var r, lo, hi := FreeAt(bs, k, h), FuseLo(bs, k), FuseHi(bs, k);
    FuseTiled(bs, lo, hi, r[lo], 0, h, t);
    FuseCoalesced(bs, lo, hi, r[lo]);
  }

  /** Allocation adds exactly the returned block to the live ones. */
  lemma TakeLive(bs: seq<Block>, k: nat, n: nat, h: nat, t: nat)
    requires Heap(bs, h, t) && k < |bs| && Fits(bs[k], n, h)
    ensures Block(bs[k].addr, n, false) !in Live(bs)
    ensures Live(TakeAt(bs, k, n, h)) == Live(bs) + {Block(bs[k].addr, n, false)}
  {
    var r, taken := TakeAt(bs, k, n, h), Block(bs[k].addr, n, false);
    forall x: Block | !x.free ensures x in r <==> x in bs || x == taken {
      SplitMembers(bs, k, k + 1, x);
      SplitMembers(r, k, k + 1 + (|r| - |bs|), x);
      assert r[..k] == bs[..k] && r[k + 1 + (|r| - |bs|)..] == bs[k + 1..];
      assert taken == r[k..k + 1 + (|r| - |bs|)][0];
    }
    forall i | 0 <= i < |bs| && i != k ensures bs[i].addr != bs[k].addr {
      Apart(bs, 0, h, t, if i < k then i else k, if i < k then k else i);
    }
  }

  lemma FuseMembers(bs: seq<Block>, lo: nat, hi: nat, b: Block, x: Block)
    requires lo < hi <= |bs|
    ensures x in Fuse(bs, lo, hi, b) <==> x == b || x in bs[..lo] || x in bs[hi..]
  {
  }

  lemma SplitMembers(bs: seq<Block>, lo: nat, hi: nat, x: Block)
    requires lo <= hi <= |bs|
    ensures x in bs <==> x in bs[..lo] || x in bs[lo..hi] || x in bs[hi..]
  {
  }

  /** In the fused run only block `k` is live, and it occurs nowhere else. */
  lemma FusedRun(bs: seq<Block>, k: nat, h: nat, t: nat, x: Block)
    requires Heap(bs, h, t) && k < |bs| && !bs[k].free && !x.free
    ensures x in bs[FuseLo(bs, k)..FuseHi(bs, k)] <==> x == bs[k]
    ensures bs[k] !in bs[..FuseLo(bs, k)] && bs[k] !in bs[FuseHi(bs, k)..]
  {
    var lo, hi := FuseLo(bs, k), FuseHi(bs, k);
    assert bs[k] == bs[lo..hi][k - lo];
    forall i | 0 <= i < |bs| && i != k ensures bs[i] != bs[k] {
      Apart(bs, 0, h, t, if i < k then i else k, if i < k then k else i);
    }
  }

  /** Release removes exactly the released block from the live ones. */
  lemma FreeLive(bs: seq<Block>, k: nat, h: nat, t: nat)
    requires Heap(bs, h, t) && k < |bs| && !bs[k].free
    ensures Live(FreeAt(bs, k, h)) == Live(bs) - {bs[k]}
  {
    var r, lo, hi := FreeAt(bs, k, h), FuseLo(bs, k), FuseHi(bs, k);
    forall x: Block | !x.free ensures x in r <==> x in bs && x != bs[k] {
      FuseMembers(bs, lo, hi, r[lo], x);
      SplitMembers(bs, lo, hi, x);
      FusedRun(bs, k, h, t, x);
    }
  }

  /** Where the next live block starts is visible from the live set alone. */
  lemma FirstGap(xs: seq<Block>, ys: seq<Block>, a: nat, h: nat, t: nat)
    requires h > 0 && Tiled(xs, a, h, t) && Tiled(ys, a, h, t) && Coalesced(xs)
    requires xs != [] && ys != [] && Live(xs) == Live(ys)
    ensures !xs[0].free ==> xs[0] == ys[0]
    ensures xs[0].free && ys[0].free ==> xs[0].size >= ys[0].size
  {
    Layout(xs, a, h, t);
    Layout(ys, a, h, t);
    if !xs[0].free {
      assert xs[0] in Live(ys);
      var i :| 0 <= i < |ys| && ys[i] == xs[0];
    } else if ys[0].free && |xs| > 1 {
      assert xs[1] in Live(ys);
      var i :| 0 <= i < |ys| && ys[i] == xs[1];
    }
  }

  lemma HeadsAgree(xs: seq<Block>, ys: seq<Block>, a: nat, h: nat, t: nat)
    requires h > 0 && Tiled(xs, a, h, t) && Tiled(ys, a, h, t) && Coalesced(xs) && Coalesced(ys)
    requires xs != [] && ys != [] && Live(xs) == Live(ys)
    ensures xs[0] == ys[0]
  {
    FirstGap(xs, ys, a, h, t);
    FirstGap(ys, xs, a, h, t);
  }

  lemma Tail(bs: seq<Block>, a: nat, h: nat, t: nat)
    requires h > 0 && Tiled(bs, a, h, t) && Coalesced(bs) && bs != []
    ensures a < t && Tiled(bs[1..], a + h + bs[0].size, h, t) && Coalesced(bs[1..])
    ensures Live(bs[1..]) == Live(bs) - {bs[0]}
  {
    Within(bs, a, h, t, 0);
    forall i | 0 < i < |bs| ensures bs[i] != bs[0] { Apart(bs, a, h, t, 0, i); }
    assert bs == [bs[0]] + bs[1..];
  }

  /** A well-formed heap is determined by its live blocks. */
  lemma {:induction false} Canonical(xs: seq<Block>, ys: seq<Block>, a: nat, h: nat, t: nat)
    requires h > 0 && Tiled(xs, a, h, t) && Tiled(ys, a, h, t) && Coalesced(xs) && Coalesced(ys)
    requires Live(xs) == Live(ys)
    ensures xs == ys
  {
    if xs != [] { Tail(xs, a, h, t); }
    if ys != [] { Tail(ys, a, h, t); }
    if xs == [] {
    } else {
      HeadsAgree(xs, ys, a, h, t);
      Canonical(xs[1..], ys[1..], a + h + xs[0].size, h, t);
      assert xs == [xs[0]] + xs[1..] && ys == [ys[0]] + ys[1..];
    }
  }

  /** Releasing what was just allocated restores the very same heap. */
  lemma TakeThenFree(bs: seq<Block>, k: nat, n: nat, h: nat, t: nat)
    requires Heap(bs, h, t) && k < |bs| && Fits(bs[k], n, h)
    ensures FreeAt(TakeAt(bs, k, n, h), k, h) == bs
  {
  }

  // ---- Whole runs -------------------------------------------------------------------

  datatype Event = Allocate(n: nat) | Release(addr: nat)

  /** Index of the live block at address `addr`, `|bs|` if there is none. */
  ghost function LiveAt(bs: seq<Block>, addr: nat): (k: nat)
    ensures k <= |bs|
    ensures k < |bs| ==> bs[k].addr == addr && !bs[k].free
    ensures k == |bs| ==> forall b :: b in Live(bs) ==> b.addr != addr
  {
    if k: nat :| k < |bs| && bs[k].addr == addr && !bs[k].free then k else |bs|
  }

  lemma LiveAtIs(bs: seq<Block>, k: nat, h: nat, t: nat)
    requires Heap(bs, h, t) && k < |bs| && !bs[k].free
    ensures LiveAt(bs, bs[k].addr) == k
  {
    assert bs[k] in Live(bs);
    var i := LiveAt(bs, bs[k].addr);
    if i != k { Apart(bs, 0, h, t, if i < k then i else k, if i < k then k else i); }
  }

  /** Every other live block lies wholly before or wholly after the blocks `lo` to `k`. */
  lemma LiveClear(bs: seq<Block>, lo: nat, k: nat, b: Block, h: nat, t: nat)
    requires Heap(bs, h, t) && lo <= k < |bs| && k <= lo + 1 && b in Live(bs) && b != bs[k] && b != bs[lo]
    ensures b.addr + h + b.size <= bs[lo].addr || bs[k].addr + h + bs[k].size <= b.addr
  {
    var i :| 0 <= i < |bs| && bs[i] == b;
    if i < lo { Apart(bs, 0, h, t, i, lo); } else { Apart(bs, 0, h, t, k, i); }
  }

  ghost function Step(bs: seq<Block>, e: Event, h: nat): seq<Block>
  {
    match e
    case Allocate(n) =>
      var k := FirstFit(bs, n, h);
      if k < |bs| then TakeAt(bs, k, n, h) else bs
    case Release(addr) =>
      var k := LiveAt(bs, addr);
      if k < |bs| then FreeAt(bs, k, h) else bs
  }

  /** What a scan that stopped at `k` must do to serve the request. */
  lemma Serves(bs: seq<Block>, n: nat, h: nat, k: nat)
    requires k <= |bs| && (k < |bs| ==> Fits(bs[k], n, h))
    requires forall i :: 0 <= i < k ==> !Fits(bs[i], n, h)
    ensures FirstFit(bs, n, h) == k
    ensures Step(bs, Allocate(n), h) == if k < |bs| then TakeAt(bs, k, n, h) else bs
  {
  }

  ghost function Run(bs: seq<Block>, es: seq<Event>, h: nat): seq<Block>
    decreases |es|
  {
    if es == [] then bs else Run(Step(bs, es[0], h), es[1..], h)
  }

  /** A release of the address just allocated undoes the allocation, whatever the heap. */
  lemma AllocateThenRelease(bs: seq<Block>, n: nat, h: nat, t: nat)
    requires Heap(bs, h, t) && FirstFit(bs, n, h) < |bs|
    ensures var k := FirstFit(bs, n, h);
      Step(Step(bs, Allocate(n), h), Release(bs[k].addr), h) == bs != Step(bs, Allocate(n), h)
  {
    hide Heap, FreeAt;
    var k := FirstFit(bs, n, h);
    var r := TakeAt(bs, k, n, h);
    TakeKeepsHeap(bs, k, n, h, t);
    TakeThenFree(bs, k, n, h, t);
    assert r[k] == Block(bs[k].addr, n, false);
    LiveAtIs(r, k, h, t);
  }

  lemma StepKeepsHeap(bs: seq<Block>, e: Event, h: nat, t: nat)
    requires Heap(bs, h, t)
    ensures Heap(Step(bs, e, h), h, t)
  {
    match e
    case Allocate(n) =>
      var k := FirstFit(bs, n, h);
      if k < |bs| { TakeKeepsHeap(bs, k, n, h, t); }
    case Release(addr) =>
      var k := LiveAt(bs, addr);
      if k < |bs| { FreeKeepsHeap(bs, k, h, t); }
  }

  lemma {:induction false} RunKeepsHeap(bs: seq<Block>, es: seq<Event>, h: nat, t: nat)
    requires Heap(bs, h, t)
    ensures Heap(Run(bs, es, h), h, t)
    decreases |es|
  {
    if es == [] {
    } else {
      StepKeepsHeap(bs, es[0], h, t);
      RunKeepsHeap(Step(bs, es[0], h), es[1..], h, t);
    }
  }

  /** Whatever run of requests and releases, a heap with nothing live is the fresh heap. */
  lemma DrainedIsFresh(es: seq<Event>, h: nat, t: nat)
    requires 0 < h <= t
    requires Live(Run(Fresh(h, t), es, h)) == {}
    ensures Run(Fresh(h, t), es, h) == Fresh(h, t)
  {
    RunKeepsHeap(Fresh(h, t), es, h, t);
    assert Live(Fresh(h, t)) == {};
    Canonical(Run(Fresh(h, t), es, h), Fresh(h, t), 0, h, t);
  }

  ghost function Releases(order: seq<Block>): seq<Event>
  {
    if order == [] then [] else [Release(order[0].addr)] + Releases(order[1..])
  }

  ghost predicate Distinct(order: seq<Block>)
  {
    forall i, j :: 0 <= i < j < |order| ==> order[i] != order[j]
  }

  ghost function Elements(order: seq<Block>): set<Block>
  {
    set b | b in order
  }

  lemma ReleaseStep(bs: seq<Block>, b: Block, h: nat, t: nat)
    requires Heap(bs, h, t) && b in Live(bs)
    ensures Heap(Step(bs, Release(b.addr), h), h, t)
    ensures Live(Step(bs, Release(b.addr), h)) == Live(bs) - {b}
  {
    var k :| 0 <= k < |bs| && bs[k] == b;
    LiveAtIs(bs, k, h, t);
    FreeLive(bs, k, h, t);
    FreeKeepsHeap(bs, k, h, t);
  }

  lemma FirstReleased(bs: seq<Block>, order: seq<Block>, h: nat)
    requires order != [] && Distinct(order)
    ensures Run(bs, Releases(order), h) == Run(Step(bs, Release(order[0].addr), h), Releases(order[1..]), h)
    ensures Distinct(order[1..]) && Elements(order) == Elements(order[1..]) + {order[0]}
    ensures order[0] !in Elements(order[1..])
  {
    hide Step;
    assert Releases(order)[1..] == Releases(order[1..]);
    assert order == [order[0]] + order[1..];
  }

  /** Releasing live blocks in some order removes exactly those blocks. */
  lemma {:induction false} ReleasesLive(bs: seq<Block>, order: seq<Block>, h: nat, t: nat)
    requires Heap(bs, h, t) && Elements(order) <= Live(bs) && Distinct(order)
    ensures Live(Run(bs, Releases(order), h)) == Live(bs) - Elements(order)
    ensures Heap(Run(bs, Releases(order), h), h, t)
    decreases |order|
  {
    if order == [] {
    } else {
      hide *;
      var b, rest := order[0], order[1..];
      FirstReleased(bs, order, h);
      ReleaseStep(bs, b, h, t);
      ReleasesLive(Step(bs, Release(b.addr), h), rest, h, t);
    }
  }

  /** Releasing every live block, in whatever order, empties any heap. */
  lemma ReleaseAllInAnyOrder(bs: seq<Block>, order: seq<Block>, h: nat, t: nat)
    requires Heap(bs, h, t)
    requires Elements(order) == Live(bs) && Distinct(order)
    ensures Run(bs, Releases(order), h) == Fresh(h, t)
  {
    ReleasesLive(bs, order, h, t);
    assert Live(Run(bs, Releases(order), h)) == {} == Live(Fresh(h, t));
    Canonical(Run(bs, Releases(order), h), Fresh(h, t), 0, h, t);
  }
}
