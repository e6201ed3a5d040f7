/** The page manager of my_pthread/my_pthread.c as a state machine: thread pages live in RAM
    frames or swap slots, a table entry per slot says whose page it holds, and a frame is
    either open to the running thread or closed. */
module PageTable {
  import opened Bytes
  import Bits

  type Page = seq<byte>

  /** Table entry: page number, owning thread, and free mark (1 free, 0 in use). */
  datatype Pte = Pte(pg: nat, th: nat, free: nat)

  /** Slots `0..frames` are RAM, the rest are swap. `pageNum` has the live threads, each with
      the number of pages it was given so far; `nextId` is the next thread id. */
  datatype Mem = Mem(table: seq<Pte>, data: seq<Page>, frames: nat, open: seq<bool>,
                     current: nat, pageNum: map<nat, nat>, nextId: nat)

  ghost predicate Shape(m: Mem)
  {
    && |m.data| == |m.table| < 0x1_0000
    && 0 < m.frames <= |m.table| && |m.open| == m.frames
    && m.current in m.pageNum
    && (forall t :: t in m.pageNum ==> 0 < t < m.nextId <= 0x100)
    && (forall s :: 0 <= s < |m.table| ==> m.table[s].free < 2 && m.table[s].th < m.nextId)
  }

  /** An entry that carries a live thread's id is in use and holds a page that thread owns. */
  ghost predicate Owned(m: Mem)
  {
    forall s :: 0 <= s < |m.table| && m.table[s].th in m.pageNum ==>
      m.table[s].free == 0 && m.table[s].pg < m.pageNum[m.table[s].th]
  }

  predicate Is(e: Pte, t: nat, p: nat) {
    e.th == t && e.pg == p
  }

  /** No page of a live thread is in two slots. */
  ghost predicate Unique(m: Mem)
  {
    forall s, s' :: 0 <= s < s' < |m.table| && m.table[s].th in m.pageNum ==>
      !Is(m.table[s'], m.table[s].th, m.table[s].pg)
  }

  ghost predicate Stored(m: Mem, t: nat, p: nat)
  {
    exists s :: 0 <= s < |m.table| && Is(m.table[s], t, p)
  }

  /** Every page of a live thread is in some slot. */
  ghost predicate Complete(m: Mem)
  {
    forall t, p: nat :: t in m.pageNum && p < m.pageNum[t] ==> Stored(m, t, p)
  }

  /** A frame open to access is free or belongs to the running thread. */
  ghost predicate Guarded(m: Mem)
  {
    forall f :: 0 <= f < |m.open| && f < |m.table| && m.open[f] ==> m.table[f].free == 1 || m.table[f].th == m.current
  }

  ghost predicate Inv(m: Mem)
    ensures Inv(m) ==> Shape(m) && m.current in m.pageNum && m.frames <= |m.table|
  {
    Shape(m) && Owned(m) && Unique(m) && Complete(m) && Guarded(m)
  }

  ghost predicate HasPage(m: Mem, t: nat, p: nat)
  {
    t in m.pageNum && p < m.pageNum[t]
  }

  /** The slot that holds page `p` of live thread `t`. */
  ghost function SlotOf(m: Mem, t: nat, p: nat): (s: nat)
    requires Inv(m) && HasPage(m, t, p)
    ensures s < |m.table| && Is(m.table[s], t, p)
  {
    assert Stored(m, t, p);
    var s :| 0 <= s < |m.table| && Is(m.table[s], t, p);
    s
  }

  /** The bytes thread `t` reaches through its page `p`. */
  ghost function Content(m: Mem, t: nat, p: nat): Page
    requires Inv(m) && HasPage(m, t, p)
  {
    m.data[SlotOf(m, t, p)]
  }

  lemma SlotIs(m: Mem, t: nat, p: nat, s: nat)
    requires Inv(m) && HasPage(m, t, p) && s < |m.table| && Is(m.table[s], t, p)
    ensures SlotOf(m, t, p) == s
  {
  }

  /** A step that carries every page of `m`, with its contents, from slot `s` to slot `at(s)`. */
  ghost predicate Carried(m: Mem, r: Mem, at: nat -> nat)
    requires Shape(m)
  {
    forall s: nat :: s < |m.table| && m.table[s].th in m.pageNum ==>
      at(s) < |r.table| == |r.data| && r.table[at(s)] == m.table[s] && r.data[at(s)] == m.data[s]
  }

  /** No page is lost or altered by a step that carries them all and adds only stored ones. */
  lemma CarriedKeeps(m: Mem, r: Mem, at: nat -> nat)
    requires Inv(m) && Shape(r) && Owned(r) && Unique(r) && Guarded(r) && Carried(m, r, at)
    requires forall t, p: nat :: HasPage(r, t, p) ==> HasPage(m, t, p) || Stored(r, t, p)
    ensures Inv(r)
    ensures forall t, p :: HasPage(m, t, p) && HasPage(r, t, p) ==> Content(r, t, p) == Content(m, t, p)
  {
    forall t, p: nat | HasPage(r, t, p) ensures Stored(r, t, p) {
      if HasPage(m, t, p) { assert Is(r.table[at(SlotOf(m, t, p))], t, p); }
    }
    forall t, p | HasPage(m, t, p) && HasPage(r, t, p) ensures Content(r, t, p) == Content(m, t, p) {
      SlotIs(r, t, p, at(SlotOf(m, t, p)));
    }
  }

  // ---- Exchanging two slots ------------------------------------------------------------

  ghost function Exchange<T>(q: seq<T>, i: nat, j: nat): seq<T>
    requires i < |q| && j < |q|
  {
    q[i := q[j]][j := q[i]]
  }

  /** `pageSwap` and `swapToMemFromDisk`: entries and contents change places; the RAM frames
      involved end closed. */
  ghost function SwapSlots(m: Mem, i: nat, j: nat): Mem
    requires i < |m.table| && j < |m.table| && |m.data| == |m.table| && |m.open| == m.frames
  {
    m.(table := Exchange(m.table, i, j), data := Exchange(m.data, i, j),
       open := Closed(Closed(m.open, i), j))
  }

  ghost function Closed(open: seq<bool>, i: nat): (r: seq<bool>)
    ensures |r| == |open|
    ensures forall k :: 0 <= k < |open| ==> r[k] == (open[k] && k != i)
  {
    if i < |open| then open[i := false] else open
  }

  lemma SwapKeepsTable(m: Mem, i: nat, j: nat)
    requires Inv(m) && i < |m.table| && j < |m.table|
    ensures var r := SwapSlots(m, i, j); Shape(r) && Owned(r) && Unique(r) && Guarded(r)
    ensures var r := SwapSlots(m, i, j);
      forall s :: 0 <= s < |r.table| ==> r.table[Across(s, i, j)] == m.table[s] && r.data[Across(s, i, j)] == m.data[s]
  {
    hide Complete;
    var r := SwapSlots(m, i, j);
    assert forall s :: 0 <= s < |r.table| ==> r.table[s] == m.table[Across(s, i, j)];
  }

  lemma SwapKeeps(m: Mem, i: nat, j: nat)
    requires Inv(m) && i < |m.table| && j < |m.table|
    ensures Inv(SwapSlots(m, i, j))
    ensures forall t, p :: HasPage(m, t, p) ==> Content(SwapSlots(m, i, j), t, p) == Content(m, t, p)
  {
    hide Unique, Owned, Complete, Guarded, Content;
    SwapKeepsTable(m, i, j);
    CarriedKeeps(m, SwapSlots(m, i, j), s => Across(s, i, j));
  }

  ghost function Across(s: nat, i: nat, j: nat): nat {
    if s == i then j else if s == j then i else s
  }

  // ---- Giving the running thread one more page -----------------------------------------

  /** First free slot in `lo..hi`, `hi` if there is none. */
  ghost function FirstFree(table: seq<Pte>, lo: nat, hi: nat): (s: nat)
    requires lo <= hi <= |table|
    ensures lo <= s <= hi
    ensures s < hi ==> table[s].free == 1
    ensures forall i :: lo <= i < s ==> table[i].free != 1
    decreases hi - lo
  {
    if lo == hi || table[lo].free == 1 then lo else FirstFree(table, lo + 1, hi)
  }

  lemma FirstFreeIs(table: seq<Pte>, lo: nat, hi: nat, s: nat)
    requires lo <= s <= hi <= |table| && (s < hi ==> table[s].free == 1)
    requires forall i :: lo <= i < s ==> table[i].free != 1
    ensures FirstFree(table, lo, hi) == s
    decreases hi - lo
  {
  }

  /** Where `moveToFreeSpace` and then `moveToDiskSpace` would put a page: the first free
      frame, else the first free swap slot, else `|table|`. */
  ghost function Room(m: Mem): nat
    requires m.frames <= |m.table|
  {
    var i := FirstFree(m.table, 0, m.frames);
    if i < m.frames then i else FirstFree(m.table, m.frames, |m.table|)
  }

  /** Frame `index` emptied by moving its page to slot `to`. */
  ghost function MoveOut(m: Mem, index: nat, to: nat): Mem
    requires Shape(m) && index < m.frames && to < |m.table|
  {
    if to == index then m
    else m.(table := m.table[to := m.table[index]][index := m.table[index].(free := 1)],
            data := m.data[to := m.data[index]],
            open := Closed(m.open[index := true], to))
  }

  /** A page with the header of one free block covering it. */
  ghost function Rooted(c: Page): Page
  {
    if |c| < 4 then c else Store(c, 0, 4, Bits.Pack(|c| - 4, 0, 1))
  }

  /** `initializePage`: frame `index` becomes the next page of the running thread; the very
      first page also gets a block header, which is written to frame 0. */
  ghost function InitPage(m: Mem, index: nat): Mem
    requires Shape(m) && index < m.frames
  {
    var p := m.pageNum[m.current];
    var r := m.(table := m.table[index := Pte(p, m.current, 0)], pageNum := m.pageNum[m.current := p + 1]);
    if p == 0 then r.(open := m.open[0 := true], data := m.data[0 := Rooted(m.data[0])]) else r
  }

  lemma {:induction false} PagesInSlots(m: Mem, t: nat, n: nat) returns (slots: set<nat>)
    requires Inv(m) && t in m.pageNum && n <= m.pageNum[t]
    ensures |slots| == n && forall s :: s in slots ==> s < |m.table| && m.table[s].th == t && m.table[s].pg < n
  {
    if n == 0 {
      slots := {};
    } else {
      slots := PagesInSlots(m, t, n - 1);
      slots := slots + {SlotOf(m, t, n - 1)};
    }
  }

  lemma {:induction false} Bounded(slots: set<nat>, n: nat)
    requires forall s :: s in slots ==> s < n
    ensures |slots| <= n
  {
    if n == 0 {
      assert slots == {};
    } else {
      Bounded(slots - {n - 1}, n - 1);
    }
  }

  /** A thread never has more pages than there are slots, so page numbers fit their field. */
  lemma PagesFit(m: Mem, t: nat)
    requires Inv(m) && t in m.pageNum
    ensures m.pageNum[t] <= |m.table| < 0x1_0000
  {
    var slots := PagesInSlots(m, t, m.pageNum[t]);
    Bounded(slots, |m.table|);
  }

  ghost function AddPage(m: Mem, index: nat): Mem
    requires Shape(m) && index < m.frames && Room(m) < |m.table|
  {
    InitPage(MoveOut(m, index, Room(m)), index)
  }

  /** The table after the running thread's next page was put in frame `index` and the entry
      that was there moved to the free slot `to`. */
  ghost predicate Added(m: Mem, r: Mem, index: nat, to: nat)
    requires Shape(m) && index < m.frames && to < |m.table|
  {
    && r.table == m.table[to := m.table[index]][index := Pte(m.pageNum[m.current], m.current, 0)]
    && r.pageNum == m.pageNum[m.current := m.pageNum[m.current] + 1]
  }

  lemma AddKeepsUnique(m: Mem, r: Mem, index: nat, to: nat)
    requires Inv(m) && index < m.frames && to < |m.table| && m.table[to].free == 1 && Added(m, r, index, to)
    ensures Owned(r) && Unique(r)
  {
  }

  lemma AddKeepsTable(m: Mem, index: nat)
    requires Inv(m) && index < m.frames && Room(m) < |m.table|
    requires m.pageNum[m.current] == 0 ==> index == 0
    ensures var r := AddPage(m, index); Shape(r) && Owned(r) && Unique(r) && Guarded(r)
  {
    var r, to := AddPage(m, index), Room(m);
    assert m.table[to].free == 1;
    assert Added(m, r, index, to);
    AddKeepsUnique(m, r, index, to);
    hide Unique, Complete, Room, Owned;
    assert r.frames == m.frames && r.current == m.current && r.nextId == m.nextId;
    forall f | 0 <= f < |r.open| && r.open[f] ensures r.table[f].free == 1 || r.table[f].th == r.current {
      if f != index { assert f != to && r.table[f] == m.table[f] && m.open[f]; }
    }
  }

  lemma AddCarries(m: Mem, index: nat)
    requires Inv(m) && index < m.frames && Room(m) < |m.table|
    requires m.pageNum[m.current] == 0 ==> index == 0
    ensures var r := AddPage(m, index);
      && |r.table| == |r.data| == |m.table| && Is(r.table[index], m.current, m.pageNum[m.current])
      && forall s :: 0 <= s < |m.table| && m.table[s].th in m.pageNum ==>
           var s' := if s == index then Room(m) else s; r.table[s'] == m.table[s] && r.data[s'] == m.data[s]
  {
  }

  lemma AddKeepsPages(m: Mem, index: nat)
    requires Inv(m) && index < m.frames && Room(m) < |m.table|
    requires m.pageNum[m.current] == 0 ==> index == 0
    ensures Inv(AddPage(m, index))
    ensures forall t, p :: HasPage(m, t, p) ==> Content(AddPage(m, index), t, p) == Content(m, t, p)
  {
    hide Unique, Owned, Complete, Guarded, Content;
    AddKeepsTable(m, index);
    var r, to := AddPage(m, index), Room(m);
    AddCarries(m, index);
    var at := s => if s == index then to else s;
    forall t, p: nat | HasPage(r, t, p) ensures HasPage(m, t, p) || Stored(r, t, p) {
      if !HasPage(m, t, p) { assert Is(r.table[index], t, p); }
    }
    CarriedKeeps(m, r, at);
  }

  // ---- Page faults ---------------------------------------------------------------------

  /** First slot in `lo..hi` that holds page `p` of thread `t`; `used` asks for in-use entries. */
  ghost function Find(table: seq<Pte>, lo: nat, hi: nat, t: nat, p: nat, used: bool): (s: nat)
    requires lo <= hi <= |table|
    ensures lo <= s <= hi
    ensures s < hi ==> Is(table[s], t, p) && (used ==> table[s].free == 0)
    ensures forall i :: lo <= i < s ==> !(Is(table[i], t, p) && (used ==> table[i].free == 0))
    decreases hi - lo
  {
    if lo == hi || (Is(table[lo], t, p) && (used ==> table[lo].free == 0)) then lo
    else Find(table, lo + 1, hi, t, p, used)
  }

  lemma FindIs(table: seq<Pte>, lo: nat, hi: nat, t: nat, p: nat, used: bool, s: nat)
    requires lo <= s <= hi <= |table| && (s < hi ==> Is(table[s], t, p) && (used ==> table[s].free == 0))
    requires forall i :: lo <= i < s ==> !(Is(table[i], t, p) && (used ==> table[i].free == 0))
    ensures Find(table, lo, hi, t, p, used) == s
    decreases hi - lo
  {
  }

  ghost function Opened(m: Mem, f: nat): Mem
    requires f < |m.open|
  {
    m.(open := m.open[f := true])
  }

  /** The slot `sigHandler` settles on for page `index`; `|table|` means a segmentation fault. */
  ghost function FaultSlot(m: Mem, index: nat): nat
    requires m.frames <= |m.table|
  {
    var i := Find(m.table, 0, m.frames, m.current, index, false);
    if i < m.frames then i else Find(m.table, m.frames, |m.table|, m.current, index, true)
  }

  ghost function Fault(m: Mem, index: nat): Mem
    requires Shape(m) && index < m.frames && FaultSlot(m, index) < |m.table|
  {
    var s := FaultSlot(m, index);
    Opened(if s == index then m else SwapSlots(m, index, s), index)
  }

  /** The handler finds a slot exactly when the running thread owns the page, and then its slot. */
  lemma FaultFound(m: Mem, index: nat)
    requires Inv(m)
    ensures FaultSlot(m, index) < |m.table| <==> HasPage(m, m.current, index)
    ensures HasPage(m, m.current, index) ==> FaultSlot(m, index) == SlotOf(m, m.current, index)
  {
    if HasPage(m, m.current, index) {
      SlotIs(m, m.current, index, SlotOf(m, m.current, index));
    }
  }

  /** Then the page is in its own frame, open, with the contents it always had; every other page keeps
      its own. */
  lemma FaultServed(m: Mem, index: nat)
    requires Inv(m) && index < m.frames
    ensures HasPage(m, m.current, index) ==>
      FaultSlot(m, index) < |m.table| && var r := Fault(m, index);
      && Inv(r) && Is(r.table[index], m.current, index) && r.open[index]
      && r.data[index] == Content(m, m.current, index)
      && forall t, p :: HasPage(m, t, p) ==> Content(r, t, p) == Content(m, t, p)
  {
    FaultFound(m, index);
    var s := FaultSlot(m, index);
    if HasPage(m, m.current, index) {
      var w := if s == index then m else SwapSlots(m, index, s);
      if s != index { SwapKeeps(m, index, s); }
      OpenKeeps(w, index);
    }
  }

  lemma OpenKeeps(m: Mem, f: nat)
    requires Inv(m) && f < m.frames && m.table[f].th == m.current
    ensures Inv(Opened(m, f))
    ensures forall t, p :: HasPage(m, t, p) ==> Content(Opened(m, f), t, p) == Content(m, t, p)
  {
    var r := Opened(m, f);
    assert Carried(m, r, s => s);
    CarriedKeeps(m, r, s => s);
  }

  // ---- Context switches, thread death and birth, user writes -----------------------------

  /** `protectAllPages`: every frame whose entry carries thread `t` is closed. */
  ghost function Protect(m: Mem, t: nat): Mem
    requires Shape(m)
  {
    m.(open := seq(m.frames, f requires 0 <= f < m.frames => m.open[f] && m.table[f].th != t))
  }

  /** `freePages`: every frame whose entry carries the running thread becomes free and open. */
  ghost function FreePages(m: Mem): Mem
    requires Shape(m)
  {
    m.(table := seq(|m.table|, s requires 0 <= s < |m.table| =>
                  if s < m.frames && m.table[s].th == m.current then m.table[s].(free := 1) else m.table[s]),
       open := seq(m.frames, f requires 0 <= f < m.frames => m.open[f] || m.table[f].th == m.current))
  }

  ghost function Switch(m: Mem, next: nat): Mem
    requires Shape(m)
  {
    if next == m.current then m else Protect(m, m.current).(current := next)
  }

  ghost function Exit(m: Mem, next: nat): Mem
    requires Shape(m)
  {
    Switch(FreePages(m), next).(pageNum := m.pageNum - {m.current})
  }

  ghost function Create(m: Mem): Mem
  {
    m.(pageNum := m.pageNum[m.nextId := 0], nextId := m.nextId + 1)
  }

  ghost function Write(m: Mem, f: nat, c: Page): Mem
    requires f < |m.data|
  {
    m.(data := m.data[f := c])
  }

  lemma SwitchKeeps(m: Mem, next: nat)
    requires Inv(m) && next in m.pageNum
    ensures Inv(Switch(m, next))
    ensures forall t, p :: HasPage(m, t, p) ==> Content(Switch(m, next), t, p) == Content(m, t, p)
  {
    var r := Switch(m, next);
    assert r.table == m.table && r.data == m.data;
    CarriedKeeps(m, r, s => s);
  }

  lemma ExitKeepsTable(m: Mem, next: nat)
    requires Inv(m) && next in m.pageNum && next != m.current
    ensures var r := Exit(m, next); Shape(r) && Owned(r) && Unique(r) && Guarded(r)
    ensures var r := Exit(m, next);
      forall s :: 0 <= s < |m.table| && m.table[s].th in r.pageNum ==>
        r.table[s] == m.table[s] && r.data[s] == m.data[s]
  {
  }

  /** Thread death leaves every other thread's pages where and as they were. */
  lemma ExitKeeps(m: Mem, next: nat)
    requires Inv(m) && next in m.pageNum && next != m.current
    ensures Inv(Exit(m, next)) && m.current !in Exit(m, next).pageNum
    ensures forall t, p :: HasPage(m, t, p) && t != m.current ==>
      HasPage(Exit(m, next), t, p) && Content(Exit(m, next), t, p) == Content(m, t, p)
  {
    var r := Exit(m, next);
    ExitKeepsTable(m, next);
    assert Complete(r) by {
      forall t, p: nat | t in r.pageNum && p < r.pageNum[t] ensures Stored(r, t, p) {
        assert Is(r.table[SlotOf(m, t, p)], t, p);
      }
    }
    forall t, p | HasPage(m, t, p) && t != m.current ensures Content(r, t, p) == Content(m, t, p) {
      SlotIs(r, t, p, SlotOf(m, t, p));
    }
  }

  lemma CreateKeeps(m: Mem)
    requires Inv(m) && m.nextId < 0x100
    ensures Inv(Create(m))
    ensures forall t, p :: HasPage(m, t, p) ==> Content(Create(m), t, p) == Content(m, t, p)
  {
    var r := Create(m);
    CarriedKeeps(m, r, s => s);
  }

  /** A write through an open frame can only reach a page of the running thread. */
  lemma WriteIsolated(m: Mem, f: nat, c: Page)
    requires Inv(m) && f < m.frames && m.open[f]
    ensures Inv(Write(m, f, c))
    ensures forall t, p :: HasPage(m, t, p) && !(t == m.current && SlotOf(m, t, p) == f) ==>
      Content(Write(m, f, c), t, p) == Content(m, t, p)
  {
    var r := Write(m, f, c);
    assert Complete(r) by {
      assert forall t, p: nat :: Stored(m, t, p) ==> Stored(r, t, p);
    }
    forall t, p | HasPage(m, t, p) && !(t == m.current && SlotOf(m, t, p) == f)
      ensures Content(r, t, p) == Content(m, t, p)
    {
      SlotIs(r, t, p, SlotOf(m, t, p));
    }
  }

  // ---- Runs ----------------------------------------------------------------------------

  /** FirstPage is the allocator's set-up at frame 0, NextPage one round of `gatherPages`. */
  datatype Event = PageFault(index: nat) | FirstPage | NextPage | UserWrite(f: nat, c: Page)
                 | SwitchTo(next: nat) | ExitTo(next: nat) | NewThread

  /** An event the program cannot carry out (no room, no such page, closed frame, no thread id
      left below 256) leaves the state alone. */
  ghost function Step(m: Mem, e: Event): Mem
    requires Shape(m)
  {
    match e
    case PageFault(index) => if index < m.frames && FaultSlot(m, index) < |m.table| then Fault(m, index) else m
    case FirstPage => if m.table[0].th != m.current && Room(m) < |m.table| then AddPage(m, 0) else m
    case NextPage =>
      var index := m.pageNum[m.current];
      if index < m.frames && Room(m) < |m.table| then AddPage(m, index) else m
    case UserWrite(f, c) => if f < m.frames && m.open[f] then Write(m, f, c) else m
    case SwitchTo(next) => if next in m.pageNum then Switch(m, next) else m
    case ExitTo(next) => if next in m.pageNum && next != m.current then Exit(m, next) else m
    case NewThread => if m.nextId < 0x100 then Create(m) else m
  }

  /** Every step keeps the invariant, and the page `(t, p)` keeps its contents unless `t` itself
      is running and writes, and keeps existing unless `t` itself exits. */
  lemma StepKeeps(m: Mem, e: Event)
    requires Inv(m)
    ensures Inv(Step(m, e))
    ensures forall t, p :: HasPage(m, t, p) && !(t == m.current && e.ExitTo?) ==> HasPage(Step(m, e), t, p)
    ensures forall t, p :: HasPage(m, t, p) && !(t == m.current && (e.ExitTo? || e.UserWrite?)) ==>
      Content(Step(m, e), t, p) == Content(m, t, p)
  {
    hide Owned, Unique, Complete, Guarded, Content, Room, FaultSlot;
    match e
    case PageFault(index) =>
      if index < m.frames {
        FaultFound(m, index);
        FaultServed(m, index);
      }
    case FirstPage => if Room(m) < |m.table| { AddKeepsPages(m, 0); }
    case NextPage =>
      var index := m.pageNum[m.current];
      if index < m.frames && Room(m) < |m.table| { AddKeepsPages(m, index); }
    case UserWrite(f, c) => if f < m.frames && m.open[f] { WriteIsolated(m, f, c); }
    case SwitchTo(next) => if next in m.pageNum { SwitchKeeps(m, next); }
    case ExitTo(next) => if next in m.pageNum && next != m.current { ExitKeeps(m, next); }
    case NewThread => if m.nextId < 0x100 { CreateKeeps(m); }
  }

  ghost function Run(m: Mem, es: seq<Event>): (r: Mem)
    requires Inv(m)
    ensures Inv(r)
    decreases |es|
  {
    if es == [] then m else StepKeeps(m, es[0]); Run(Step(m, es[0]), es[1..])
  }

  /** Thread `t` neither writes nor exits while running, anywhere along the run. */
  ghost predicate Quiet(m: Mem, es: seq<Event>, t: nat)
    requires Inv(m)
    decreases |es|
  {
    es == [] || (!(t == m.current && (es[0].ExitTo? || es[0].UserWrite?))
                 && (StepKeeps(m, es[0]); Quiet(Step(m, es[0]), es[1..], t)))
  }

  /** Isolation over whole runs: whatever the other threads do, and wherever its pages are
      moved, the bytes a thread reaches change only by its own writes. */
  lemma {:induction false} RunIsolated(m: Mem, es: seq<Event>, t: nat, p: nat)
    requires Inv(m) && HasPage(m, t, p) && Quiet(m, es, t)
    ensures HasPage(Run(m, es), t, p) && Content(Run(m, es), t, p) == Content(m, t, p)
    decreases |es|
  {
    if es == [] {
    } else {
      StepKeeps(m, es[0]);
      RunIsolated(Step(m, es[0]), es[1..], t, p);
    }
  }

  /** The state set up by the first allocation: all slots free, one thread with id 1. */
  ghost function Initial(frames: nat, data: seq<Page>): Mem
    requires 0 < frames <= |data|
  {
    Mem(seq(|data|, _ => Pte(0, 0, 1)), data, frames, seq(frames, _ => true), 1, map[1 := 0], 2)
  }

  lemma InitialInv(frames: nat, data: seq<Page>)
    requires 0 < frames <= |data| < 0x1_0000
    ensures Inv(Initial(frames, data))
  {
  }

  // ---- The first allocation --------------------------------------------------------------------

  /** Where frame 0 holds a page of the running thread or there is room for one, it then does, and that
      is its page 0 if and only if it was there before, or the thread had none. */
  lemma FirstPageIff(m: Mem)
    requires Inv(m) && (m.table[0].th == m.current || Room(m) < |m.table|)
    ensures Step(m, FirstPage).table[0].th == m.current
    ensures Is(Step(m, FirstPage).table[0], m.current, 0) <==>
      if m.table[0].th == m.current then m.table[0].pg == 0 else m.pageNum[m.current] == 0
  {
    hide Owned, Unique, Complete, Guarded;
  }

  /** A run in which that fails, with any swap and any three or more frames: thread 1's page 0 is moved
      out for thread 2's, and when thread 1 allocates again, frame 0 gets its page 1. */
  lemma FirstPageMisplaced(frames: nat, data: seq<Page>)
    requires 3 <= frames <= |data| < 0x1_0000
    ensures Inv(Initial(frames, data))
    ensures var m := Run(Initial(frames, data), [FirstPage, NewThread, SwitchTo(2), FirstPage, SwitchTo(1), FirstPage]);
      m.current == 1 && |m.table| >= 3 && m.table[..3] == [Pte(1, 1, 0), Pte(0, 1, 0), Pte(0, 2, 0)]
  {
    hide *;
    var a, b := [FirstPage, NewThread, SwitchTo(2)], [FirstPage, SwitchTo(1), FirstPage];
    SecondAllocates(frames, data);
    RunAppend(Initial(frames, data), a, b);
    FirstAllocatesAgain(Run(Initial(frames, data), a));
    assert a + b == [FirstPage, NewThread, SwitchTo(2), FirstPage, SwitchTo(1), FirstPage];
  }

  lemma SecondAllocates(frames: nat, data: seq<Page>)
    requires 3 <= frames <= |data| < 0x1_0000
    ensures Inv(Initial(frames, data))
    ensures var m := Run(Initial(frames, data), [FirstPage, NewThread, SwitchTo(2)]);
      && |m.table| == |data| && m.frames == frames && m.table[0] == Pte(0, 1, 0)
      && m.table[1] == m.table[2] == Pte(0, 0, 1) && m.current == 2 && m.pageNum == map[1 := 1, 2 := 0]
  {
    InitialInv(frames, data);
    hide *;
    var m0 := Initial(frames, data);
    InitialIs(frames, data);
    FirstPageIs(m0, 0);
    var m1 := Step(m0, FirstPage);
    NewThreadIs(m1);
    SwitchIs(Step(m1, NewThread), 2);
    RunThree(m0, FirstPage, NewThread, SwitchTo(2));
  }

  lemma FirstAllocatesAgain(m: Mem)
    requires Inv(m) && 3 <= m.frames && m.table[0] == Pte(0, 1, 0) && m.table[1] == m.table[2] == Pte(0, 0, 1)
    requires m.current == 2 && m.pageNum == map[1 := 1, 2 := 0]
    ensures var r := Run(m, [FirstPage, SwitchTo(1), FirstPage]);
      r.current == 1 && |r.table| >= 3 && r.table[..3] == [Pte(1, 1, 0), Pte(0, 1, 0), Pte(0, 2, 0)]
  {
    hide *;
    FirstPageIs(m, 1);
    var m1 := Step(m, FirstPage);
    assert m1.table[0] == Pte(0, 2, 0) && m1.table[1] == Pte(0, 1, 0) && m1.table[2] == Pte(0, 0, 1);
    SwitchIs(m1, 1);
    FirstPageIs(Step(m1, SwitchTo(1)), 2);
    RunThree(m, FirstPage, SwitchTo(1), FirstPage);
  }

  lemma RunThree(m: Mem, a: Event, b: Event, c: Event)
    requires Inv(m)
    ensures Inv(Step(m, a)) && Inv(Step(Step(m, a), b)) && Run(m, [a, b, c]) == Step(Step(Step(m, a), b), c)
  {
    hide *;
    RunCons(m, a, [b, c]);
    RunCons(Step(m, a), b, [c]);
    RunCons(Step(Step(m, a), b), c, []);
    assert [a, b, c] == [a] + [b, c] && [b, c] == [b] + [c] && [c] == [c] + [];
  }

  lemma {:induction false} RunAppend(m: Mem, es: seq<Event>, more: seq<Event>)
    requires Inv(m)
    ensures Run(m, es + more) == Run(Run(m, es), more)
    decreases |es|
  {
    hide Inv, Step;
    if es == [] {
      assert es + more == more;
    } else {
      StepKeeps(m, es[0]);
      RunAppend(Step(m, es[0]), es[1..], more);
      assert (es + more)[1..] == es[1..] + more;
    }
  }

  lemma InitialIs(frames: nat, data: seq<Page>)
    requires 0 < frames <= |data|
    ensures var m := Initial(frames, data);
      && |m.table| == |data| && m.frames == frames && (forall s :: 0 <= s < |data| ==> m.table[s] == Pte(0, 0, 1))
      && m.current == 1 && m.pageNum == map[1 := 0] && m.nextId == 2
  {
  }

  lemma RunCons(m: Mem, e: Event, es: seq<Event>)
    requires Inv(m)
    ensures Inv(Step(m, e)) && Run(m, [e] + es) == Run(Step(m, e), es)
    ensures es == [] ==> Run(m, [e] + es) == Step(m, e)
  {
    hide Inv, Step;
    StepKeeps(m, e);
    assert ([e] + es)[1..] == es;
  }

  lemma FirstPageIs(m: Mem, to: nat)
    requires Inv(m) && m.table[0].th != m.current
    requires to < m.frames && m.table[to].free == 1 && forall i :: 0 <= i < to ==> m.table[i].free != 1
    ensures var r := Step(m, FirstPage);
      && Inv(r) && r.table == m.table[to := m.table[0]][0 := Pte(m.pageNum[m.current], m.current, 0)]
      && r.pageNum == m.pageNum[m.current := m.pageNum[m.current] + 1]
      && r.current == m.current && r.nextId == m.nextId && r.frames == m.frames
  {
    StepKeeps(m, FirstPage);
    FirstFreeIs(m.table, 0, m.frames, to);
    hide Inv, FirstFree;
  }

  lemma SwitchIs(m: Mem, next: nat)
    requires Inv(m) && next in m.pageNum
    ensures Inv(Step(m, SwitchTo(next)))
      && Step(m, SwitchTo(next)) == m.(current := next, open := Step(m, SwitchTo(next)).open)
  {
    StepKeeps(m, SwitchTo(next));
    hide Inv;
  }

  lemma NewThreadIs(m: Mem)
    requires Inv(m) && m.nextId < 0x100
    ensures Inv(Step(m, NewThread))
    ensures Step(m, NewThread) == m.(pageNum := m.pageNum[m.nextId := 0], nextId := m.nextId + 1)
  {
    StepKeeps(m, NewThread);
    hide Inv;
  }

  // ---- Gathering several pages -----------------------------------------------------------

  function FreeMark(e: Pte): nat {
    if e.free == 1 then 1 else 0
  }

  /** Number of free slots. */
  ghost function FreeCount(table: seq<Pte>): nat
  {
    if table == [] then 0 else FreeCount(table[..|table| - 1]) + FreeMark(table[|table| - 1])
  }

  lemma {:induction false} FreeCountUpdate(table: seq<Pte>, i: nat, e: Pte)
    requires i < |table|
    ensures FreeCount(table[i := e]) == FreeCount(table) - FreeMark(table[i]) + FreeMark(e)
  {
    var n := |table| - 1;
    if i < n {
      FreeCountUpdate(table[..n], i, e);
      assert table[i := e][..n] == table[..n][i := e];
    } else {
      assert table[i := e][..n] == table[..n];
    }
  }

  lemma {:induction false} SomeFree(table: seq<Pte>)
    requires FreeCount(table) > 0
    ensures exists s :: 0 <= s < |table| && table[s].free == 1
  {
    var n := |table| - 1;
    if table[n].free == 1 {
    } else {
      SomeFree(table[..n]);
      var s :| 0 <= s < n && table[..n][s].free == 1;
      assert table[s].free == 1;
    }
  }

  lemma RoomExists(m: Mem)
    requires Shape(m) && FreeCount(m.table) > 0
    ensures Room(m) < |m.table|
  {
    SomeFree(m.table);
  }

  lemma AddPageUsesOne(m: Mem, index: nat)
    requires Shape(m) && index < m.frames && Room(m) < |m.table|
    ensures FreeCount(AddPage(m, index).table) == FreeCount(m.table) - 1
  {
    var to, e := Room(m), Pte(m.pageNum[m.current], m.current, 0);
    FreeCountUpdate(m.table, to, m.table[index]);
    FreeCountUpdate(m.table[to := m.table[index]], index, e);
    assert AddPage(m, index).table == m.table[to := m.table[index]][index := e];
  }

  /** One round of gathering: the next page goes to the frame of its own number. */
  ghost function AddNext(m: Mem): (r: Mem)
    requires Inv(m) && FreeCount(m.table) > 0 && m.pageNum[m.current] < m.frames
    ensures Inv(r) && r.frames == m.frames && r.current == m.current && FreeCount(r.table) == FreeCount(m.table) - 1
    ensures r.pageNum == m.pageNum[m.current := m.pageNum[m.current] + 1]
  {
    hide Owned, Unique, Complete, Guarded;
    RoomExists(m);
    AddKeepsPages(m, m.pageNum[m.current]);
    AddPageUsesOne(m, m.pageNum[m.current]);
    AddPage(m, m.pageNum[m.current])
  }

  ghost predicate Placed(m: Mem, q: nat)
  {
    q < |m.table| && Is(m.table[q], m.current, q)
  }

  /** The new page is in its frame; pages already in their own frames stay there. */
  lemma AddNextPlaced(m: Mem, q: nat)
    requires Inv(m) && FreeCount(m.table) > 0 && m.pageNum[m.current] < m.frames
    requires q == m.pageNum[m.current] || (q < m.pageNum[m.current] && Placed(m, q))
    ensures Placed(AddNext(m), q)
  {
    RoomExists(m);
    assert q < m.pageNum[m.current] ==> m.table[q].free == 0;
  }

  /** `gatherPages`: `k` more pages for the running thread. */
  ghost function Gather(m: Mem, k: nat): (r: Mem)
    requires Inv(m) && FreeCount(m.table) >= k && m.pageNum[m.current] + k <= m.frames
    ensures Inv(r) && r.current == m.current
    decreases k
  {
    if k == 0 then m else Gather(AddNext(m), k - 1)
  }

  lemma {:induction false} GatherCounts(m: Mem, k: nat)
    requires Inv(m) && FreeCount(m.table) >= k && m.pageNum[m.current] + k <= m.frames
    ensures FreeCount(Gather(m, k).table) == FreeCount(m.table) - k
    ensures Gather(m, k).pageNum == m.pageNum[m.current := m.pageNum[m.current] + k]
    decreases k
  {
    hide Inv, AddNext;
    if k == 0 {
    } else {
      GatherCounts(AddNext(m), k - 1);
    }
  }

  lemma {:induction false} GatherPlaced(m: Mem, k: nat, q: nat)
    requires Inv(m) && FreeCount(m.table) >= k && m.pageNum[m.current] + k <= m.frames
    requires q < m.pageNum[m.current] + k && (q < m.pageNum[m.current] ==> Placed(m, q))
    ensures Placed(Gather(m, k), q)
    decreases k
  {
    hide Inv, AddNext, Placed;
    if k == 0 {
    } else {
      if q <= m.pageNum[m.current] { AddNextPlaced(m, q); }
      GatherPlaced(AddNext(m), k - 1, q);
    }
  }

  lemma AddNextCarries(m: Mem, t: nat, p: nat)
    requires Inv(m) && FreeCount(m.table) > 0 && m.pageNum[m.current] < m.frames && HasPage(m, t, p)
    ensures HasPage(AddNext(m), t, p) && Content(AddNext(m), t, p) == Content(m, t, p)
  {
    RoomExists(m);
    AddKeepsPages(m, m.pageNum[m.current]);
  }

  lemma {:induction false} GatherCarries(m: Mem, k: nat, t: nat, p: nat)
    requires Inv(m) && FreeCount(m.table) >= k && m.pageNum[m.current] + k <= m.frames && HasPage(m, t, p)
    ensures HasPage(Gather(m, k), t, p) && Content(Gather(m, k), t, p) == Content(m, t, p)
    decreases k
  {
    hide Inv, AddNext, Content;
    if k == 0 {
    } else {
      AddNextCarries(m, t, p);
      GatherCarries(AddNext(m), k - 1, t, p);
    }
  }

  /** With enough free slots, gathering `k` pages uses exactly `k` of them, adds exactly the next
      `k` page numbers, each in the frame of that number, and alters no page already there. */
  lemma GatherKeeps(m: Mem, k: nat)
    requires Inv(m) && FreeCount(m.table) >= k && m.pageNum[m.current] + k <= m.frames
    ensures var r := Gather(m, k);
      && FreeCount(r.table) == FreeCount(m.table) - k
      && r.pageNum == m.pageNum[m.current := m.pageNum[m.current] + k]
      && (forall q: nat :: m.pageNum[m.current] <= q < m.pageNum[m.current] + k ==> Placed(r, q))
      && (forall t, p :: HasPage(m, t, p) ==> HasPage(r, t, p) && Content(r, t, p) == Content(m, t, p))
  {
    hide Inv, Content, Gather;
    GatherCounts(m, k);
    forall q: nat | m.pageNum[m.current] <= q < m.pageNum[m.current] + k ensures Placed(Gather(m, k), q) {
      GatherPlaced(m, k, q);
    }
    forall t, p | HasPage(m, t, p) ensures HasPage(Gather(m, k), t, p)
      && Content(Gather(m, k), t, p) == Content(m, t, p) {
      GatherCarries(m, k, t, p);
    }
  }

  // ---- What an exit leaves behind --------------------------------------------------------------

  /** How many of the entries carry thread `t`. */
  ghost function CountOf(table: seq<Pte>, t: nat): nat
  {
    if table == [] then 0
    else CountOf(table[..|table| - 1], t) + if table[|table| - 1].th == t then 1 else 0
  }

  /** An exit gives back exactly the RAM frames that carry the thread; its swap slots are abandoned. */
  lemma ExitFrees(m: Mem, next: nat)
    requires Inv(m) && next != m.current
    ensures FreeCount(Exit(m, next).table) == FreeCount(m.table) + CountOf(m.table[..m.frames], m.current)
    ensures forall s :: m.frames <= s < |m.table| && m.table[s].th == m.current ==> Abandoned(Exit(m, next), s)
  {
    var r := Exit(m, next);
    hide Unique, Complete, Guarded;
    assert m.table[..|m.table|] == m.table && r.table[..|m.table|] == r.table;
    FreedUpTo(m, r.table, |m.table|);
  }

  lemma {:induction false} FreedUpTo(m: Mem, table: seq<Pte>, n: nat)
    requires Inv(m) && n <= |m.table| == |table|
    requires forall s :: 0 <= s < |table| ==>
      table[s] == if s < m.frames && m.table[s].th == m.current then m.table[s].(free := 1) else m.table[s]
    ensures FreeCount(table[..n])
         == FreeCount(m.table[..n]) + CountOf(m.table[..if n < m.frames then n else m.frames], m.current)
  {
    if n == 0 {
    } else {
      FreedUpTo(m, table, n - 1);
      assert table[..n][..n - 1] == table[..n - 1] && m.table[..n][..n - 1] == m.table[..n - 1];
    }
  }

  /** The entry of a swap slot that is in use for a thread that is dead. */
  ghost predicate Abandoned(m: Mem, s: nat)
  {
    m.frames <= s < |m.table| && m.table[s].free == 0 && m.table[s].th !in m.pageNum
  }

  /** Such a slot is never used again. */
  lemma {:induction false} AbandonedForever(m: Mem, es: seq<Event>, s: nat)
    requires Inv(m) && Abandoned(m, s)
    ensures Abandoned(Run(m, es), s) && Run(m, es).table[s] == m.table[s]
    decreases |es|
  {
    if es == [] {
    } else {
      StepKeeps(m, es[0]);
      AbandonedStep(m, es[0], s);
      hide Inv, Step, Abandoned;
      AbandonedForever(Step(m, es[0]), es[1..], s);
    }
  }

  lemma AbandonedStep(m: Mem, e: Event, s: nat)
    requires Inv(m) && Abandoned(m, s)
    ensures Abandoned(Step(m, e), s) && Step(m, e).table[s] == m.table[s]
  {
    hide Owned, Unique, Complete, Guarded, Rooted, Find, FirstFree, Content;
    if e.PageFault? { FaultFound(m, e.index); }
  }

  // ---- What the steps do to each frame ---------------------------------------------------------

  /** The page begins with the header of one free block that covers the rest of it. */
  predicate OneFreeBlock(c: Page) {
    |c| >= 4
    && var w := Load(c, 0, 4);
    Bits.GetBlockIsF(w) == 1 && Bits.GetBlockSize(w) == |c| - 4 && Bits.GetBlockIsNext(w) == 0
  }

  lemma RootedIs(c: Page)
    requires 4 <= |c| < 0x100_0000
    ensures OneFreeBlock(Rooted(c)) && |Rooted(c)| == |c| && Rooted(c)[4..] == c[4..]
  {
    hide Load, Store, Bits.GetBlockIsF, Bits.GetBlockSize, Bits.GetBlockIsNext, Bits.Pack;
    Pow256Small();
    Bits.PackFields(|c| - 4, 0, 1);
    LoadStored(c, 0, 4, Bits.Pack(|c| - 4, 0, 1));
    StoreBehind(c, Bits.Pack(|c| - 4, 0, 1));
  }

  lemma StoreBehind(c: Page, w: nat)
    requires 4 <= |c|
    ensures |Store(c, 0, 4, w)| == |c| && Store(c, 0, 4, w)[4..] == c[4..]
  {
  }

  /** Setting up a page: page 0 of a thread gets one free block, any other page is left as it is. */
  lemma InitPageIs(m: Mem, index: nat)
    requires Shape(m) && index < m.frames && 4 <= |m.data[0]| < 0x100_0000
    ensures var r, p := InitPage(m, index), m.pageNum[m.current];
      && r.table == m.table[index := Pte(p, m.current, 0)] && r.pageNum == m.pageNum[m.current := p + 1]
      && |r.data| == |m.data| && |r.open| == |m.open|
      && (forall s :: 0 < s < |m.data| ==> r.data[s] == m.data[s])
      && (if p == 0 then OneFreeBlock(r.data[0]) && r.data[0][4..] == m.data[0][4..] else r.data[0] == m.data[0])
      && forall f :: 0 <= f < m.frames ==> (r.open[f] <==> m.open[f] || (f == 0 && p == 0))
  {
    hide Rooted, OneFreeBlock;
    RootedIs(m.data[0]);
  }

  /** Adding a page: the frame is open if its page was moved out, and the frame it went to closed. */
  lemma AddPageIs(m: Mem, index: nat)
    requires Shape(m) && index < m.frames && Room(m) < |m.table|
    requires forall s :: 0 <= s < |m.data| ==> 4 <= |m.data[s]| < 0x100_0000
    requires m.pageNum[m.current] == 0 ==> index == 0
    ensures var r, p, to := AddPage(m, index), m.pageNum[m.current], Room(m);
      && |r.table| == |m.table| == |r.data| == |m.data| && |r.open| == m.frames
      && (forall s :: 0 <= s < |m.table| && s != index && s != to ==>
        r.table[s] == m.table[s] && r.data[s] == m.data[s])
      && r.table[index] == Pte(p, m.current, 0)
      && (to != index ==> r.table[to] == m.table[index] && r.data[to] == m.data[index])
      && (p == 0 ==> OneFreeBlock(r.data[0]) && r.data[0][4..] == m.data[0][4..])
      && forall f :: 0 <= f < m.frames ==>
           (r.open[f] <==> if f == 0 && p == 0 then true else if to == index then m.open[f]
                           else f == index || (f != to && m.open[f]))
  {
    hide InitPage, OneFreeBlock, FirstFree;
    InitPageIs(MoveOut(m, index, Room(m)), index);
  }

  /** A served fault exchanges two slots, or none, and opens the page's frame; the frame the other page
      went to is closed. */
  lemma FaultIs(m: Mem, index: nat)
    requires Shape(m) && index < m.frames && FaultSlot(m, index) < |m.table|
    ensures var r, s := Fault(m, index), FaultSlot(m, index);
      && |r.table| == |m.table| == |r.data| == |m.data| && |r.open| == m.frames
      && (forall k :: 0 <= k < |m.table| ==>
            var from := if k == index then s else if k == s then index else k;
            r.table[k] == m.table[from] && r.data[k] == m.data[from])
      && (forall f :: 0 <= f < m.frames ==> (r.open[f] <==> f == index || (f != s && m.open[f])))
      && r.pageNum == m.pageNum && r.current == m.current
  {
    hide FaultSlot;
  }

  /** Switching closes exactly the open frames that carry the outgoing thread. */
  lemma SwitchOpen(m: Mem, next: nat)
    requires Shape(m)
    ensures var r := Switch(m, next);
      && r.table == m.table && r.data == m.data && r.pageNum == m.pageNum && r.current == next && |r.open| == m.frames
      && forall f :: 0 <= f < m.frames ==>
           (r.open[f] <==> m.open[f] && (next == m.current || m.table[f].th != m.current))
  {
  }

  /** Exit marks exactly the frames that carry the thread free, and closes exactly those. */
  lemma ExitIs(m: Mem, next: nat)
    requires Shape(m) && next != m.current
    ensures var r := Exit(m, next);
      && |r.table| == |m.table| && r.data == m.data && |r.open| == m.frames && r.current == next
      && r.pageNum == m.pageNum - {m.current}
      && (forall s :: 0 <= s < |m.table| ==>
            r.table[s] == if s < m.frames && m.table[s].th == m.current then m.table[s].(free := 1) else m.table[s])
      && forall f :: 0 <= f < m.frames ==> (r.open[f] <==> m.open[f] && m.table[f].th != m.current)
  {
  }
}
