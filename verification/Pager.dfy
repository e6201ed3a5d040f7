/** The page manager of my_pthread/my_pthread.c over its real data: two arrays of packed table
    words, the user frames, the swap file and a protection bit per frame. Each method is tied
    to a transition of the machine in PageTable. */
module Pager {
  import opened Bits
  import opened Bytes
  import opened PageTable

  function EntryAt(w: nat): Pte {
    Pte(GetPagePgID(w), GetPageThID(w), GetPageIsF(w))
  }

  ghost function Table(ws: seq<nat>): (r: seq<Pte>)
    ensures |r| == |ws| && forall i :: 0 <= i < |ws| ==> r[i] == EntryAt(ws[i])
  {
    seq(|ws|, i requires 0 <= i < |ws| => EntryAt(ws[i]))
  }

  /** What the arrays and counters hold, as values. */
  datatype Raw = Raw(p: seq<nat>, d: seq<nat>, u: seq<Page>, w: seq<Page>, open: seq<bool>,
                     current: nat, pageNum: map<nat, nat>, nextId: nat)

  ghost function Abs(r: Raw): (m: Mem)
    ensures m.frames == |r.p| && m.open == r.open && m.current == r.current && m.pageNum == r.pageNum
      && m.nextId == r.nextId
    ensures |m.table| == |r.p| + |r.d|
  {
    Mem(Table(r.p) + Table(r.d), r.u + r.w, |r.p|, r.open, r.current, r.pageNum, r.nextId)
  }

  /** Words fit, pages are whole, lengths agree, and the state is well shaped. */
  ghost predicate Sane(r: Raw, pageSize: nat)
    ensures Sane(r, pageSize) ==> |r.u| == |r.open| == |r.p| && |r.w| == |r.d| && 0 < |r.p|
    ensures Sane(r, pageSize) ==> r.current in r.pageNum && r.current < 0x100
    ensures Sane(r, pageSize) ==> Shape(Abs(r)) && 4 <= pageSize < 0x100_0000
  {
    && |r.u| == |r.open| == |r.p| && |r.w| == |r.d|
    && 4 <= pageSize < 0x100_0000
    && (forall i :: 0 <= i < |r.p| ==> r.p[i] < WORD)
    && (forall i :: 0 <= i < |r.d| ==> r.d[i] < WORD)
    && (forall i :: 0 <= i < |r.u| ==> |r.u[i]| == pageSize)
    && (forall i :: 0 <= i < |r.w| ==> |r.w[i]| == pageSize)
    && Shape(Abs(r))
  }

  lemma RawSwap(r: Raw, ps: nat, i: nat, j: nat)
    requires Sane(r, ps) && i < |r.p| && j < |r.p|
    ensures var r' := r.(p := Exchange(r.p, i, j), u := Exchange(r.u, i, j), open := r.open[i := false][j := false]);
      Abs(r') == SwapSlots(Abs(r), i, j) && Sane(r', ps)
  {
    hide EntryAt;
    var r' := r.(p := Exchange(r.p, i, j), u := Exchange(r.u, i, j), open := r.open[i := false][j := false]);
    assert Abs(r').table == Exchange(Abs(r).table, i, j);
    assert Abs(r').data == Exchange(Abs(r).data, i, j);
    assert r'.open == SwapSlots(Abs(r), i, j).open;
  }

  lemma RawSwapDisk(r: Raw, ps: nat, i: nat, k: nat)
    requires Sane(r, ps) && i < |r.p| && k < |r.d|
    ensures var r' := r.(p := r.p[i := r.d[k]], d := r.d[k := r.p[i]], u := r.u[i := r.w[k]], w := r.w[k := r.u[i]],
                         open := r.open[i := false]);
      Abs(r') == SwapSlots(Abs(r), i, |r.p| + k) && Sane(r', ps)
  {
    hide EntryAt;
    var r' := r.(p := r.p[i := r.d[k]], d := r.d[k := r.p[i]], u := r.u[i := r.w[k]], w := r.w[k := r.u[i]],
                 open := r.open[i := false]);
    assert Abs(r').table == Exchange(Abs(r).table, i, |r.p| + k);
    assert Abs(r').data == Exchange(Abs(r).data, i, |r.p| + k);
    assert r'.open == SwapSlots(Abs(r), i, |r.p| + k).open;
  }

  /** The entry at `index` marked free. */
  lemma FreedEntry(w: nat)
    requires w < WORD
    ensures SetPageIsF(w, 1) < WORD && EntryAt(SetPageIsF(w, 1)) == EntryAt(w).(free := 1)
  {
    hide SetPageIsF, GetPageIsF, GetPagePgID, GetPageThID;
    SetPageIsFFields(w, 1);
  }

  lemma RawMove(r: Raw, ps: nat, index: nat, to: nat)
    requires Sane(r, ps) && index < |r.p| && to < |r.p| && to != index
    ensures var r' := r.(p := r.p[to := r.p[index]][index := SetPageIsF(r.p[index], 1)], u := r.u[to := r.u[index]],
                         open := r.open[index := true][to := false]);
      Abs(r') == MoveOut(Abs(r), index, to) && Sane(r', ps)
  {
    hide EntryAt, SetPageIsF;
    FreedEntry(r.p[index]);
    var r' := r.(p := r.p[to := r.p[index]][index := SetPageIsF(r.p[index], 1)], u := r.u[to := r.u[index]],
                 open := r.open[index := true][to := false]);
    assert Abs(r').table == MoveOut(Abs(r), index, to).table;
    assert Abs(r').data == MoveOut(Abs(r), index, to).data;
    assert r'.open == MoveOut(Abs(r), index, to).open;
  }

  lemma RawMoveDisk(r: Raw, ps: nat, index: nat, k: nat)
    requires Sane(r, ps) && index < |r.p| && k < |r.d|
    ensures var r' := r.(p := r.p[index := SetPageIsF(r.p[index], 1)], d := r.d[k := r.p[index]],
      w := r.w[k := r.u[index]],
                         open := r.open[index := true]);
      Abs(r') == MoveOut(Abs(r), index, |r.p| + k) && Sane(r', ps)
  {
    hide EntryAt, SetPageIsF;
    FreedEntry(r.p[index]);
    var r' := r.(p := r.p[index := SetPageIsF(r.p[index], 1)], d := r.d[k := r.p[index]], w := r.w[k := r.u[index]],
                 open := r.open[index := true]);
    assert Abs(r').table == MoveOut(Abs(r), index, |r.p| + k).table;
    assert Abs(r').data == MoveOut(Abs(r), index, |r.p| + k).data;
    assert r'.open == MoveOut(Abs(r), index, |r.p| + k).open;
  }

  lemma RamEntry(r: Raw, ps: nat)
    requires Sane(r, ps)
    ensures forall i :: 0 <= i < |r.p| ==> Abs(r).table[i] == EntryAt(r.p[i])
    ensures forall i :: 0 <= i < |r.d| ==> Abs(r).table[|r.p| + i] == EntryAt(r.d[i])
    ensures |Abs(r).table| == |r.p| + |r.d| && Abs(r).frames == |r.p|
  {
  }

  /** The word `initializePage` builds from whatever was in the entry. */
  function InitWord(w: nat, pg: nat, th: nat): nat {
    SetPageIsF(SetPageThID(SetPagePgID(w, pg), th), 0)
  }

  /** The block header `initializePage` builds over whatever was in the page. */
  function RootWord(c: Page): nat
    requires |c| >= 4
  {
    SetBlockIsNext(SetBlockSize(SetBlockIsF(Load(c, 0, 4), 1), |c| - 4), 0)
  }

  ghost function RawInited(r: Raw, index: nat): Raw
    requires r.current in r.pageNum && index < |r.p| && 0 < |r.u| && 0 < |r.open|
  {
    var pg := r.pageNum[r.current];
    var r' := r.(p := r.p[index := InitWord(r.p[index], pg, r.current)], pageNum := r.pageNum[r.current := pg + 1]);
    if pg == 0 then r'.(u := r.u[0 := Rooted(r.u[0])], open := r.open[0 := true]) else r'
  }

  lemma RootWordIs(c: Page)
    requires 4 <= |c| < 0x100_0000
    ensures RootWord(c) == Pack(|c| - 4, 0, 1) && Store(c, 0, 4, RootWord(c)) == Rooted(c)
  {
    hide SetBlockIsNext, SetBlockSize, SetBlockIsF, Pack, Load;
    Pow256Small();
    BlockWordRoundTrip(Load(c, 0, 4), |c| - 4, 0, 1);
  }

  lemma RawInit(r: Raw, ps: nat, index: nat)
    requires Sane(r, ps) && index < |r.p| && r.pageNum[r.current] < 0x1_0000
    ensures Abs(RawInited(r, index)) == InitPage(Abs(r), index) && Sane(RawInited(r, index), ps)
  {
    hide SetPageIsF, SetPageThID, SetPagePgID, GetPagePgID, GetPageThID, GetPageIsF, Entry, Pack;
    var r', m', pg := RawInited(r, index), InitPage(Abs(r), index), r.pageNum[r.current];
    PageWordRoundTrip(r.p[index], pg, r.current, 0);
    GetEntry(pg, r.current, 0);
    hide EntryAt, InitWord;
    assert Abs(r').table == m'.table;
    assert Abs(r').data == m'.data;
  }

  ghost function RawProtected(r: Raw, t: nat): Raw
    requires |r.open| == |r.p|
  {
    r.(open := seq(|r.p|, f requires 0 <= f < |r.p| => r.open[f] && EntryAt(r.p[f]).th != t))
  }

  lemma RawProtect(r: Raw, ps: nat, t: nat)
    requires Sane(r, ps)
    ensures Abs(RawProtected(r, t)) == Protect(Abs(r), t) && Sane(RawProtected(r, t), ps)
  {
  }

  function FreedWord(w: nat, t: nat): nat {
    if EntryAt(w).th == t then SetPageIsF(w, 1) else w
  }

  ghost function RawFreed(r: Raw): Raw
    requires |r.open| == |r.p|
  {
    r.(p := seq(|r.p|, f requires 0 <= f < |r.p| => FreedWord(r.p[f], r.current)),
       open := seq(|r.p|, f requires 0 <= f < |r.p| => r.open[f] || EntryAt(r.p[f]).th == r.current))
  }

  lemma RawFree(r: Raw, ps: nat)
    requires Sane(r, ps)
    ensures Abs(RawFreed(r)) == FreePages(Abs(r)) && Sane(RawFreed(r), ps)
  {
    hide EntryAt, SetPageIsF;
    var r', m' := RawFreed(r), FreePages(Abs(r));
    forall f | 0 <= f < |r.p|
      ensures FreedWord(r.p[f], r.current) < WORD
      ensures EntryAt(FreedWord(r.p[f], r.current)) == m'.table[f]
    {
      FreedEntry(r.p[f]);
    }
    assert Abs(r').table == m'.table;
    assert r'.open == m'.open;
  }

  /** C integer division rounds toward zero. */
  function CDiv(a: int, b: nat): int
    requires b > 0
  {
    if a >= 0 then a / b else -((-a) / b)
  }

  /** Pages asked for to cover `r` bytes. */
  function PagesFor(r: int, ps: nat): (k: int)
    requires ps > 0
    ensures r >= 0 ==> k >= 1 && k * ps > r
  {
    CoversRequest(r, ps);
    CDiv(r, ps) + 1
  }

  /** For a request of `r` bytes: pages to hold more than `r` bytes, and not one page more. For a negative
      one the division rounds up. */
  lemma PagesForIs(r: int, ps: nat)
    requires ps > 0
    ensures var k := PagesFor(r, ps);
      && (r >= 0 ==> (k - 1) * ps <= r < k * ps)
      && (r < 0 ==> (k - 2) * ps < r <= (k - 1) * ps)
  {
    CoversRequest(r, ps);
  }

  lemma CoversRequest(r: int, ps: nat)
    requires ps > 0
    ensures r >= 0 ==> CDiv(r, ps) >= 0 && CDiv(r, ps) * ps <= r < (CDiv(r, ps) + 1) * ps
    ensures r < 0 ==> (CDiv(r, ps) - 1) * ps < r <= CDiv(r, ps) * ps
  {
    var a := if r >= 0 then r else -r;
    DivLaw(a, ps);
    OneMore(a / ps, ps);
    OneMore(-(a / ps), ps);
  }

  lemma DivLaw(a: nat, ps: nat)
    requires ps > 0
    ensures a / ps >= 0 && a / ps * ps <= a < a / ps * ps + ps
  {
    assert a == ps * (a / ps) + a % ps;
  }

  lemma OneMore(q: int, ps: nat)
    ensures (q + 1) * ps == q * ps + ps && (q - 1) * ps == q * ps - ps && -q * ps == -(q * ps)
  {
  }

  /** How the fault handler ends. `Segfault`: the program reports a segmentation fault and stops.
      `PastFrames`: it goes on to the frame behind the last one; what happens there is not modelled. */
  datatype Handled = Served | Segfault | PastFrames

  /** How gathering pages ends. `OutOfSpace`: the program reports that it is out of disk and memory
      space. `NoSuchFrame`: it asks for a frame behind the last one, which it does not test. */
  datatype Gathering = Gathered | OutOfSpace | NoSuchFrame

  class Pager {
    const pages: array<nat>
    const diskPages: array<nat>
    const userSpace: array<Page>
    const swpFile: array<Page>
    const prot: array<bool>
    const pageSize: nat
    var current: nat
    var pageNum: map<nat, nat>
    var threadNum: nat

    ghost function RawState(): Raw
      reads this, pages, diskPages, userSpace, swpFile, prot
    {
      Raw(pages[..], diskPages[..], userSpace[..], swpFile[..], prot[..], current, pageNum, threadNum)
    }

    ghost function State(): Mem
      reads this, pages, diskPages, userSpace, swpFile, prot
    {
      Abs(RawState())
    }

    ghost predicate Valid()
      reads this, pages, diskPages, userSpace, swpFile, prot
    {
      pages != diskPages && userSpace != swpFile && Sane(RawState(), pageSize)
    }

    /** The tables as the first allocation sets them up: every entry is the word 1. */
    constructor (frames: nat, slots: nat, pageSize: nat)
      requires 0 < frames && frames + slots < 0x1_0000 && 4 <= pageSize < 0x100_0000
      ensures Valid() && Inv(State()) && current == 1 && pageNum == map[1 := 0]
      ensures fresh(pages) && fresh(diskPages) && fresh(userSpace) && fresh(swpFile) && fresh(prot)
      ensures FreeCount(State().table) == frames + slots
    {
      pages := new nat[frames](_ => 1);
      diskPages := new nat[slots](_ => 1);
      userSpace := new Page[frames](_ => seq(pageSize, _ => 0));
      swpFile := new Page[slots](_ => seq(pageSize, _ => 0));
      prot := new bool[frames](_ => true);
      this.pageSize := pageSize;
      current, pageNum, threadNum := 1, map[1 := 0], 2;
      new;
      hide Abs, Inv, FreeCount, Sane;
      RawFresh(RawState(), pageSize);
    }

    method PageSwap(initial: nat, swapTo: nat)
      requires Valid() && initial < pages.Length && swapTo < pages.Length
      modifies pages, userSpace, prot
      ensures Valid()
      ensures State() == if initial == swapTo then old(State()) else SwapSlots(old(State()), initial, swapTo)
    {
      hide Abs, Shape, Sane;
      if initial == swapTo {
        return;
      }
      ghost var r := RawState();
      prot[swapTo], prot[initial] := true, true;
      var temp := userSpace[swapTo];
      userSpace[swapTo] := userSpace[initial];
      userSpace[initial] := temp;
      var tempPage := pages[swapTo];
      pages[swapTo] := pages[initial];
      pages[initial] := tempPage;
      prot[swapTo], prot[initial] := false, false;
      RawSwap(r, pageSize, initial, swapTo);
      assert RawState() == r.(p := Exchange(r.p, initial, swapTo), u := Exchange(r.u, initial, swapTo),
                              open := r.open[initial := false][swapTo := false]);
    }

    method SwapToMemFromDisk(inMem: nat, fromDisk: nat)
      requires Valid() && inMem < pages.Length && fromDisk < diskPages.Length
      modifies pages, diskPages, userSpace, swpFile, prot
      ensures Valid() && State() == SwapSlots(old(State()), inMem, pages.Length + fromDisk)
    {
      hide Abs, Shape, Sane;
      ghost var r := RawState();
      var fromFile := swpFile[fromDisk];
      prot[inMem] := true;
      var temp := fromFile;
      fromFile := userSpace[inMem];
      userSpace[inMem] := temp;
      swpFile[fromDisk] := fromFile;
      var tempPage := diskPages[fromDisk];
      diskPages[fromDisk] := pages[inMem];
      pages[inMem] := tempPage;
      prot[inMem] := false;
      RawSwapDisk(r, pageSize, inMem, fromDisk);
      assert RawState() == r.(p := r.p[inMem := r.d[fromDisk]], d := r.d[fromDisk := r.p[inMem]],
                              u := r.u[inMem := r.w[fromDisk]], w := r.w[fromDisk := r.u[inMem]],
                              open := r.open[inMem := false]);
    }

    method MoveToFreeSpace(index: nat) returns (ok: bool)
      requires Valid() && index < pages.Length
      modifies pages, userSpace, prot
      ensures Valid()
      ensures var i := FirstFree(old(State()).table, 0, pages.Length);
              ok == (i < pages.Length) && State() == if ok then MoveOut(old(State()), index, i) else old(State())
    {
      hide Abs, Shape, Sane, SetPageIsF, GetPageIsF;
      ghost var r := RawState();
      RamEntry(r, pageSize);
      for i := 0 to pages.Length
        invariant RawState() == r
        invariant forall k :: 0 <= k < i ==> Abs(r).table[k].free != 1
      {
        if GetPageIsF(pages[i]) == 1 {
          FirstFreeIs(Abs(r).table, 0, pages.Length, i);
          if i == index {
            return true;
          }
          RawMove(r, pageSize, index, i);
          prot[index] := true;
          pages[i] := pages[index];
          userSpace[i] := userSpace[index];
          pages[index] := SetPageIsF(pages[index], 1);
          prot[i] := false;
          assert RawState() == r.(p := r.p[i := r.p[index]][index := SetPageIsF(r.p[index], 1)],
                                  u := r.u[i := r.u[index]], open := r.open[index := true][i := false]);
          return true;
        }
      }
      FirstFreeIs(Abs(r).table, 0, pages.Length, pages.Length);
      ok := false;
    }

    method MoveToDiskSpace(index: nat) returns (ok: bool)
      requires Valid() && index < pages.Length
      modifies pages, diskPages, swpFile, prot
      ensures Valid()
      ensures var n := pages.Length + diskPages.Length; var i := FirstFree(old(State()).table, pages.Length, n);
              ok == (i < n) && State() == if ok then MoveOut(old(State()), index, i) else old(State())
    {
      hide Abs, Shape, Sane, SetPageIsF, GetPageIsF;
      ghost var r, f := RawState(), pages.Length;
      RamEntry(r, pageSize);
      for i := 0 to diskPages.Length
        invariant RawState() == r
        invariant forall k :: f <= k < f + i ==> Abs(r).table[k].free != 1
      {
        assert Abs(r).table[f + i] == EntryAt(diskPages[i]);
        if GetPageIsF(diskPages[i]) == 1 {
          FirstFreeIs(Abs(r).table, f, f + diskPages.Length, f + i);
          RawMoveDisk(r, pageSize, index, i);
          prot[index] := true;
          diskPages[i] := pages[index];
          swpFile[i] := userSpace[index];
          pages[index] := SetPageIsF(pages[index], 1);
          assert RawState() == r.(p := r.p[index := SetPageIsF(r.p[index], 1)], d := r.d[i := r.p[index]],
                                  w := r.w[i := r.u[index]], open := r.open[index := true]);
          return true;
        }
      }
      FirstFreeIs(Abs(r).table, f, f + diskPages.Length, f + diskPages.Length);
      ok := false;
    }

    method InitializePage(index: nat)
      requires Valid() && index < pages.Length && pageNum[current] < 0x1_0000
      modifies this`pageNum, pages, userSpace, prot
      ensures Valid() && State() == InitPage(old(State()), index)
      ensures old(pageNum[current]) == 0 ==>
        OneFreeBlock(userSpace[0]) && userSpace[0][4..] == old(userSpace[0])[4..]
    {
      hide Abs, Shape, SetPageIsF, SetPageThID, SetPagePgID, GetPagePgID, GetPageThID, GetPageIsF, Table,
           SetBlockIsNext, SetBlockSize, SetBlockIsF, Rooted, Load, Store, Pack, Entry;
      ghost var r := RawState();
      RawInit(r, pageSize, index);
      PageWordRoundTrip(pages[index], pageNum[current], current, 0);
      var pg := InitWord(pages[index], pageNum[current], current);
      pageNum := pageNum[current := pageNum[current] + 1];
      if GetPagePgID(pg) == 0 {
        prot[0] := true;
        RootWordIs(userSpace[0]);
        RootedIs(userSpace[0]);
        userSpace[0] := Store(userSpace[0], 0, 4, RootWord(userSpace[0]));
      }
      pages[index] := pg;
      assert RawState() == RawInited(r, index);
    }

    /** Empty frame `index`, to RAM if possible and else to swap, and set it up as the next page
        of the running thread. */
    method AddPageAt(index: nat) returns (ok: bool)
      requires Valid() && index < pages.Length && pageNum[current] < 0x1_0000
      modifies this`pageNum, pages, diskPages, userSpace, swpFile, prot
      ensures Valid() && ok == (Room(old(State())) < pages.Length + diskPages.Length)
      ensures State() == if ok then AddPage(old(State()), index) else old(State())
    {
      hide Sane, Shape, InitPage, MoveOut, Table, Abs, FirstFree;
      ok := MoveToFreeSpace(index);
      if !ok {
        ok := MoveToDiskSpace(index);
        if !ok {
          return false;
        }
      }
      InitializePage(index);
    }

    /** The running thread's first allocation: set up frame 0 unless it already holds one of its
        pages. */
    method FirstPage() returns (ok: bool)
      requires Valid() && Inv(State())
      modifies this`pageNum, pages, diskPages, userSpace, swpFile, prot
      ensures Valid() && Inv(State())
      ensures State() == Step(old(State()), Event.FirstPage)
      ensures ok <==> State().table[0].th == current
      ensures ok ==> (Is(State().table[0], current, 0) <==>
        if old(State()).table[0].th == current then old(State()).table[0].pg == 0 else old(pageNum[current]) == 0)
      ensures ok && old(State()).table[0].th != current && old(pageNum[current]) == 0 ==>
        OneFreeBlock(State().data[0]) && State().data[0][4..] == old(State()).data[0][4..]
      ensures !ok ==> Room(old(State())) == pages.Length + diskPages.Length
    {
      FrameSizes(RawState(), pageSize);
      hide Abs, Sane, Shape, Inv, GetPageThID, AddPage, Room, OneFreeBlock;
      RamEntry(RawState(), pageSize);
      ok := true;
      if GetPageThID(pages[0]) != current {
        ghost var m := State();
        PagesFit(m, current);
        StepKeeps(m, Event.FirstPage);
        if Room(m) < |m.table| {
          FirstPagePlaced(m);
          AddPageIs(m, 0);
        }
        RoomBound(m);
        ok := AddPageAt(0);
      }
      if ok { FirstPageIff(old(State())); }
    }

    method IsEnoughPages(sizeRequest: int) returns (k: int)
      requires Valid()
      ensures var need := PagesFor(sizeRequest, pageSize);
              k == if FreeCount(State().table) >= need then need else 0
      ensures k > 0 && sizeRequest >= 0 ==> (k - 1) * pageSize <= sizeRequest < k * pageSize
    {
      hide Abs, Shape, Sane, GetPageIsF, PagesFor, FreeCount;
      ghost var r := RawState();
      ghost var t := Abs(r).table;
      RamEntry(r, pageSize);
      NoneCounted();
      var pagesNeeded := PagesFor(sizeRequest, pageSize);
      PagesForIs(sizeRequest, pageSize);
      var freeCount := 0;
      for i := 0 to pages.Length
        invariant freeCount == FreeCount(t[..i])
      {
        CountOne(t, i);
        if GetPageIsF(pages[i]) == 1 {
          freeCount := freeCount + 1;
        }
      }
      for i := 0 to diskPages.Length
        invariant freeCount == FreeCount(t[..pages.Length + i])
      {
        CountOne(t, pages.Length + i);
        assert t[pages.Length + i] == EntryAt(diskPages[i]);
        if GetPageIsF(diskPages[i]) == 1 {
          freeCount := freeCount + 1;
        }
      }
      assert t[..pages.Length + diskPages.Length] == t;
      k := if freeCount >= pagesNeeded then pagesNeeded else 0;
    }

    method ProtectAllPages(threadID: nat)
      requires Valid()
      modifies prot
      ensures Valid() && State() == Protect(old(State()), threadID)
    {
      hide Abs, Shape, Sane, GetPageThID;
      ghost var r := RawState();
      RawProtect(r, pageSize, threadID);
      for i := 0 to pages.Length
        invariant RawState() == r.(open := prot[..])
        invariant forall f :: 0 <= f < pages.Length ==>
          prot[f] == (r.open[f] && !(f < i && EntryAt(r.p[f]).th == threadID))
      {
        if GetPageThID(pages[i]) == threadID {
          prot[i] := false;
        }
      }
      assert RawState() == RawProtected(r, threadID);
    }

    method FreePages()
      requires Valid()
      modifies pages, prot
      ensures Valid() && State() == PageTable.FreePages(old(State()))
    {
      hide Abs, Shape, Sane, GetPageThID, SetPageIsF;
      ghost var r := RawState();
      RawFree(r, pageSize);
      for i := 0 to pages.Length
        invariant RawState() == r.(open := prot[..], p := pages[..])
        invariant forall f :: 0 <= f < pages.Length ==> pages[f] == if f < i then FreedWord(r.p[f], current) else r.p[f]
        invariant forall f :: 0 <= f < pages.Length ==>
          prot[f] == (r.open[f] || (f < i && EntryAt(r.p[f]).th == current))
      {
        if GetPageThID(pages[i]) == current {
          prot[i] := true;
          pages[i] := SetPageIsF(pages[i], 1);
        }
      }
      assert RawState() == RawFreed(r);
    }

    /** `sigHandler` for an address in page `index` of user space. The range test lets the address just
        behind user space through, whose page number is the number of frames. */
    method SigHandler(index: nat) returns (r: Handled)
      requires Valid() && index <= pages.Length
      modifies pages, diskPages, userSpace, swpFile, prot
      ensures Valid()
      ensures r == Segfault <==> FaultSlot(old(State()), index) == pages.Length + diskPages.Length
      ensures r == PastFrames <==> index == pages.Length && r != Segfault
      ensures r == Served ==> State() == Fault(old(State()), index)
      ensures r == Segfault ==> State() == old(State())
      ensures Inv(old(State())) ==> Inv(State()) && (r == Segfault <==> !HasPage(old(State()), current, index))
    {
      hide Abs, Shape, Sane, GetPageThID, GetPagePgID, GetPageIsF, SwapSlots, Inv, Find, Content;
      ghost var raw, f := RawState(), pages.Length;
      ghost var m := Abs(raw);
      RamEntry(raw, pageSize);
      FaultSlotBound(m, index);
      if Inv(m) {
        FaultFound(m, index);
        if index < f { FaultServed(m, index); }
      }
      for i := 0 to pages.Length
        invariant RawState() == raw
        invariant forall k :: 0 <= k < i ==> !Is(m.table[k], current, index)
      {
        if GetPageThID(pages[i]) == current && GetPagePgID(pages[i]) == index {
          FindIs(m.table, 0, f, current, index, false, i);
          if index == pages.Length {
            return PastFrames;
          }
          if i != index {
            ExchangeSymmetric(m, i, index);
            PageSwap(index, i);
          }
          OpenFrame(index);
          return Served;
        }
      }
      FindIs(m.table, 0, f, current, index, false, f);
      r := ServeFromSwap(index);
    }

    /** The second half of the handler: the page is looked for among the used swap slots. */
    method ServeFromSwap(index: nat) returns (r: Handled)
      requires Valid() && index <= pages.Length
      modifies pages, diskPages, userSpace, swpFile, prot
      ensures Valid()
      ensures var n := pages.Length + diskPages.Length;
              var s := Find(old(State()).table, pages.Length, n, current, index, true);
              && r == (if s == n then Segfault else if index == pages.Length then PastFrames else Served)
              && State() == if r == Served then Opened(SwapSlots(old(State()), index, s), index) else old(State())
    {
      hide Abs, Shape, Sane, GetPageThID, GetPagePgID, GetPageIsF, SwapSlots, Find;
      ghost var raw, f := RawState(), pages.Length;
      ghost var m := Abs(raw);
      RamEntry(raw, pageSize);
      for i := 0 to diskPages.Length
        invariant RawState() == raw
        invariant forall k :: f <= k < f + i ==> !(Is(m.table[k], current, index) && m.table[k].free == 0)
      {
        assert m.table[f + i] == EntryAt(diskPages[i]);
        if GetPageIsF(diskPages[i]) == 0 {
          if GetPageThID(diskPages[i]) == current && GetPagePgID(diskPages[i]) == index {
            FindIs(m.table, f, f + diskPages.Length, current, index, true, f + i);
            if index == pages.Length {
              return PastFrames;
            }
            SwapToMemFromDisk(index, i);
            OpenFrame(index);
            return Served;
          }
        }
      }
      FindIs(m.table, f, f + diskPages.Length, current, index, true, f + diskPages.Length);
      r := Segfault;
    }

    method OpenFrame(f: nat)
      requires Valid() && f < pages.Length
      modifies prot
      ensures Valid() && State() == Opened(old(State()), f)
    {
      ghost var r := RawState();
      prot[f] := true;
      assert RawState() == r.(open := r.open[f := true]);
    }

    /** `gatherPages`; the last block's header word is passed in and out. */
    method GatherPages(pagesNeeded: int, lastBlock: nat) returns (r: Gathering, last: nat)
      requires Valid() && Inv(State()) && lastBlock < WORD
      requires GetBlockSize(lastBlock) + pagesNeeded * pageSize < 0x100_0000
      modifies this`pageNum, pages, diskPages, userSpace, swpFile, prot
      ensures Valid() && Inv(State())
      ensures var free, left := FreeCount(old(State()).table), pages.Length - old(pageNum[current]);
        r == if pagesNeeded <= 0 || (pagesNeeded <= free && pagesNeeded <= left) then Gathered
             else if free < left then OutOfSpace else NoSuchFrame
      ensures r == Gathered && pagesNeeded > 0 ==>
        && State() == Gather(old(State()), pagesNeeded)
        && GetBlockSize(last) == GetBlockSize(lastBlock) + pagesNeeded * pageSize
        && GetBlockIsF(last) == GetBlockIsF(lastBlock) && GetBlockIsNext(last) == GetBlockIsNext(lastBlock)
    {
      hide Abs, Shape, Sane, Inv, AddPage, FreeCount, GetBlockSize, GetBlockIsF, GetBlockIsNext, SetBlockSize,
        AddNext, Room;
      ghost var m := State();
      var left := pagesNeeded;
      last := lastBlock;
      while left > 0
        invariant Valid() && Inv(State()) && last < WORD && left <= pagesNeeded
        invariant left < 0 ==> left == pagesNeeded
        invariant State().current == m.current && State().frames == m.frames
        invariant FreeCount(State().table) - left == FreeCount(m.table) - pagesNeeded
        invariant State().pageNum[m.current] + left == m.pageNum[m.current] + pagesNeeded
        invariant left < pagesNeeded ==> State().pageNum[m.current] <= m.frames
        invariant 0 <= left <= FreeCount(State().table) && m.pageNum[m.current] + pagesNeeded <= m.frames ==>
          Gather(State(), left) == Gather(m, pagesNeeded)
        invariant GetBlockSize(last) + left * pageSize == GetBlockSize(lastBlock) + pagesNeeded * pageSize
        invariant GetBlockIsF(last) == GetBlockIsF(lastBlock) && GetBlockIsNext(last) == GetBlockIsNext(lastBlock)
      {
        var nextPage := pageNum[current];
        if nextPage >= pages.Length {
          return NoSuchFrame, last;
        }
        PagesFit(State(), current);
        GatherRound(State());
        OnePage(left, pageSize);
        var ok := AddPageAt(nextPage);
        if !ok {
          return OutOfSpace, last;
        }
        GrownBlock(last, pageSize);
        last := SetBlockSize(last, GetBlockSize(last) + pageSize);
        left := left - 1;
      }
      r := Gathered;
    }

    /** A thread heap that ends in a free block grows to serve a request it is short of by
        `sizeRequest` bytes: count the free slots, then gather the pages. */
    method GrowTail(sizeRequest: nat, lastBlock: nat) returns (r: Gathering, last: nat)
      requires Valid() && Inv(State()) && lastBlock < WORD
      requires GetBlockSize(lastBlock) + PagesFor(sizeRequest, pageSize) * pageSize < 0x100_0000
      modifies this`pageNum, pages, diskPages, userSpace, swpFile, prot
      ensures Valid() && Inv(State())
      ensures var k := PagesFor(sizeRequest, pageSize);
        && r == (if FreeCount(old(State()).table) < k then OutOfSpace
                 else if k <= pages.Length - old(pageNum[current]) then Gathered else NoSuchFrame)
        && (r == Gathered ==>
              State() == Gather(old(State()), k) && GetBlockSize(last) > GetBlockSize(lastBlock) + sizeRequest)
        && (r == OutOfSpace ==> State() == old(State()) && last == lastBlock)
    {
      hide Sane, Shape, Abs, Inv, FreeCount, GetBlockSize, GetBlockIsF, GetBlockIsNext, PagesFor;
      var k := IsEnoughPages(sizeRequest);
      if k > 0 {
        r, last := GatherPages(k, lastBlock);
      } else {
        r, last := OutOfSpace, lastBlock;
      }
    }

    /** The end of `schedule`: the frames of the thread that just ran are closed. */
    method ContextSwitch(next: nat)
      requires Valid() && next in pageNum
      modifies this`current, prot
      ensures Valid() && State() == Switch(old(State()), next)
    {
      hide Sane, Table, Protect;
      if next != current {
        ProtectAllPages(current);
        SwitchedSane(RawState(), pageSize, next);
        current := next;
      }
    }

    /** The exit branch of `schedule`: the thread's frames are freed and it is forgotten. */
    method ThreadExit(next: nat)
      requires Valid() && next in pageNum && next != current
      modifies this`current, this`pageNum, pages, prot
      ensures Valid() && State() == Exit(old(State()), next)
    {
      hide Sane, Table, Protect, PageTable.FreePages, Inv;
      var dead := current;
      FreePages();
      ContextSwitch(next);
      ForgottenSane(RawState(), pageSize, dead);
      pageNum := map t | t in pageNum && t != dead :: pageNum[t];
      assert pageNum == old(pageNum) - {dead};
    }
  }

  lemma InitialEntry()
    ensures EntryAt(1) == Pte(0, 0, 1)
  {
    hide GetPageIsF, GetPagePgID, GetPageThID;
    GetEntry(0, 0, 1);
  }

  lemma {:induction false} AllFree(table: seq<Pte>)
    requires forall s :: 0 <= s < |table| ==> table[s].free == 1
    ensures FreeCount(table) == |table|
  {
    if table == [] {
    } else {
      AllFree(table[..|table| - 1]);
    }
  }

  lemma RawFresh(r: Raw, ps: nat)
    requires 0 < |r.p| && |r.p| + |r.d| < 0x1_0000 && 4 <= ps < 0x100_0000
    requires |r.u| == |r.open| == |r.p| && |r.w| == |r.d|
    requires (forall i :: 0 <= i < |r.p| ==> r.p[i] == 1 && r.open[i] && |r.u[i]| == ps)
    requires (forall i :: 0 <= i < |r.d| ==> r.d[i] == 1 && |r.w[i]| == ps)
    requires r.current == 1 && r.pageNum == map[1 := 0] && r.nextId == 2
    ensures Sane(r, ps) && Inv(Abs(r)) && FreeCount(Abs(r).table) == |r.p| + |r.d|
  {
    hide EntryAt, FreeCount;
    InitialEntry();
    assert Abs(r) == Initial(|r.p|, r.u + r.w);
    InitialInv(|r.p|, r.u + r.w);
    AllFree(Abs(r).table);
  }

  lemma RoomBound(m: Mem)
    requires m.frames <= |m.table|
    ensures Room(m) <= |m.table|
  {
  }

  lemma FrameSizes(r: Raw, ps: nat)
    requires Sane(r, ps)
    ensures forall s :: 0 <= s < |Abs(r).data| ==> 4 <= |Abs(r).data[s]| < 0x100_0000
  {
  }

  lemma FaultSlotBound(m: Mem, index: nat)
    requires m.frames <= |m.table|
    ensures FaultSlot(m, index) <= |m.table|
  {
  }

  lemma FirstPagePlaced(m: Mem)
    requires Inv(m) && Room(m) < |m.table|
    ensures Is(AddPage(m, 0).table[0], m.current, m.pageNum[m.current])
  {
  }

  lemma SwitchedSane(r: Raw, ps: nat, next: nat)
    requires Sane(r, ps) && next in r.pageNum
    ensures Sane(r.(current := next), ps) && Abs(r.(current := next)) == Abs(r).(current := next)
  {
  }

  lemma ForgottenSane(r: Raw, ps: nat, dead: nat)
    requires Sane(r, ps) && dead != r.current
    ensures Sane(r.(pageNum := r.pageNum - {dead}), ps)
    ensures Abs(r.(pageNum := r.pageNum - {dead})) == Abs(r).(pageNum := r.pageNum - {dead})
  {
  }

  lemma ExchangeSymmetric(m: Mem, i: nat, j: nat)
    requires Shape(m) && i < |m.table| && j < |m.table|
    ensures SwapSlots(m, i, j) == SwapSlots(m, j, i)
  {
  }

  /** A round of gathering finds room exactly when some slot is free. */
  lemma GatherRound(m: Mem)
    requires Inv(m) && m.pageNum[m.current] < m.frames
    ensures Room(m) < |m.table| <==> FreeCount(m.table) > 0
    ensures Room(m) < |m.table| ==> AddPage(m, m.pageNum[m.current]) == AddNext(m)
  {
    hide Owned, Unique, Complete, Guarded, InitPage, MoveOut;
    if FreeCount(m.table) > 0 { RoomExists(m); }
    if Room(m) < |m.table| { FreeCounted(m.table, Room(m)); }
  }

  lemma {:induction false} FreeCounted(table: seq<Pte>, s: nat)
    requires s < |table| && table[s].free == 1
    ensures FreeCount(table) > 0
  {
    if s == |table| - 1 {
    } else {
      FreeCounted(table[..|table| - 1], s);
    }
  }

  lemma CountOne(t: seq<Pte>, i: nat)
    requires i < |t|
    ensures FreeCount(t[..i + 1]) == FreeCount(t[..i]) + FreeMark(t[i])
  {
    assert t[..i + 1][..i] == t[..i];
  }

  lemma NoneCounted()
    ensures forall t: seq<Pte> :: FreeCount(t[..0]) == 0
  {
  }

  lemma OnePage(k: int, d: nat)
    requires k > 0
    ensures k * d == (k - 1) * d + d && (k - 1) * d >= 0
  {
  }

  lemma GrownBlock(w: nat, d: nat)
    requires w < WORD && GetBlockSize(w) + d < 0x100_0000
    ensures var r := SetBlockSize(w, GetBlockSize(w) + d);
      && r < WORD && GetBlockSize(r) == GetBlockSize(w) + d
      && GetBlockIsF(r) == GetBlockIsF(w) && GetBlockIsNext(r) == GetBlockIsNext(w)
  {
    hide GetBlockSize, GetBlockIsF, GetBlockIsNext, SetBlockSize, Pack;
    var s, n, f := Unpack(w);
    PackFields(s, n, f);
    SetBlockSizeIs(s, n, f, s + d);
    PackFields(s + d, n, f);
  }
}
