/** A run of the scheduler of my_pthread/my_pthread.c in which maintenance promotes the younger of two
    threads: three threads sink to level 1 and yield in turn until the hundredth cycle is over. */
module Reversal {
  import opened RunQueues
  import opened Dispatch

  /** Two of the run queues, the other lists empty. */
  ghost function TwoLists(q0: seq<nat>, q1: seq<nat>): (r: seq<seq<nat>>)
    ensures |r| == LISTS && r[0] == q0 && r[1] == q1 && forall l :: 2 <= l < LISTS ==> r[l] == []
  {
    seq(LISTS, l => if l == 0 then q0 else if l == 1 then q1 else [])
  }

  lemma TwoListsSet(q0: seq<nat>, q1: seq<nat>, x: seq<nat>)
    ensures TwoLists(q0, q1)[0 := x] == TwoLists(x, q1) && TwoLists(q0, q1)[1 := x] == TwoLists(q0, x)
  {
  }

  lemma ReadyTwo(q0: seq<nat>, q1: seq<nat>)
    ensures Ready(TwoLists(q0, q1), 0) == if q0 != [] then 0 else if q1 != [] then 1 else LEVELS
  {
    assert forall l :: 2 <= l < LEVELS ==> TwoLists(q0, q1)[l] == [];
  }

  function Born(p: nat, n: nat): Info {
    Info(p, 10 * n - 10, 0.0, NEUTRAL, 0)
  }

  /** Threads 1 to 3, created at 0, 10 and 20, with the given priorities. */
  function Three(p1: nat, p2: nat, p3: nat): map<nat, Info> {
    map[1 := Born(p1, 1), 2 := Born(p2, 2), 3 := Born(p3, 3)]
  }

  ghost function ThreeThreads(lists: seq<seq<nat>>, info: map<nat, Info>, current: nat, cycles: nat,
    quantum: nat): Sched {
    Sched(Queues(lists, info), current, map[2 := Thread(false, 0), 3 := Thread(false, 0)], 4, cycles, quantum, {},
      false)
  }

  /** All three on level 1, `x` running before `y` before `z`. */
  ghost function Rotation(x: nat, y: nat, z: nat, cycles: nat): Sched {
    ThreeThreads(TwoLists([], [y, z]), Three(1, 1, 1), x, cycles, 2 * QUANTUM)
  }

  lemma TimerOnce(q0: seq<nat>, q1: seq<nat>, p: seq<nat>, x: nat, y: nat, cycles: nat)
    requires |p| == 3 && 1 <= x <= 3 && 1 <= y <= 3 && x != y && cycles < MAX_CYCLES && p[x - 1] == 0 && p[y - 1] == 0
    requires forall k :: 0 <= k < 3 ==> p[k] < 2
    requires (forall k :: 0 <= k < |q0| ==> 1 <= q0[k] <= 3) && (forall k :: 0 <= k < |q1| ==> 1 <= q1[k] <= 3)
    ensures var p' := p[x - 1 := 1];
      var s := ThreeThreads(TwoLists([y] + q0, q1), Three(p[0], p[1], p[2]), x, cycles, QUANTUM);
      WF(s) && Step(s, Timer, 0)
        == ThreeThreads(TwoLists(q0, q1 + [x]), Three(p'[0], p'[1], p'[2]), y, cycles + 1, QUANTUM)
  {
    hide Maintain, Ready;
    var p' := p[x - 1 := 1];
    var info, info' := Three(p[0], p[1], p[2]), Three(p'[0], p'[1], p'[2]);
    assert info[x := info[x].(priority := 1)] == info';
    TwoListsSet([y] + q0, q1, q1 + [x]);
    TwoListsSet([y] + q0, q1 + [x], q0);
    ReadyTwo([y] + q0, q1 + [x]);
    assert ([y] + q0)[1..] == q0;
  }

  /** With nothing on level 0, thread 3 joins threads 1 and 2 on level 1, and thread 1 runs. */
  lemma TimerLast()
    ensures var s := ThreeThreads(TwoLists([], [1, 2]), Three(1, 1, 0), 3, 2, QUANTUM);
      WF(s) && Step(s, Timer, 0) == Rotation(1, 2, 3, 3) && !Step(s, Timer, 0).halted
  {
    hide Maintain, Ready;
    assert Three(1, 1, 0)[3 := Born(0, 3).(priority := 1)] == Three(1, 1, 1);
    TwoListsSet([], [1, 2], [1, 2, 3]);
    TwoListsSet([], [1, 2, 3], [2, 3]);
    ReadyTwo([], [1, 2, 3]);
    assert [1, 2] + [3] == [1, 2, 3] && [1, 2, 3][1..] == [2, 3];
  }

  lemma RotationIs(x: nat, y: nat, z: nat, cycles: nat)
    requires Distinct(x, y, z)
    ensures var s := Rotation(x, y, z, cycles);
      && WF(s) && s.current == x && s.cycles == cycles && s.q.lists[1] == [y, z] && !s.halted
      && s.q.info.Keys == {1, 2, 3} && s.q.info[1].created < s.q.info[3].created
      && s.q.lists[0] == [] && forall l :: 2 <= l < LEVELS ==> s.q.lists[l] == []
  {
  }

  ghost predicate Distinct(x: nat, y: nat, z: nat) {
    1 <= x <= 3 && 1 <= y <= 3 && 1 <= z <= 3 && x != y && y != z && x != z
  }

  /** A thread that yields goes to the end of its level. */
  lemma YieldOnce(x: nat, y: nat, z: nat, cycles: nat, now: int)
    requires Distinct(x, y, z) && cycles < MAX_CYCLES
    ensures WF(Rotation(x, y, z, cycles))
      && Step(Rotation(x, y, z, cycles), Yield, now) == Rotation(y, z, x, cycles + 1)
  {
    hide Maintain, Ready;
    var info := Three(1, 1, 1);
    assert info[x := info[x].(status := YIELDING)][x := info[x]] == info;
    TwoListsSet([], [y, z], [y, z, x]);
    TwoListsSet([], [y, z, x], [z, x]);
    ReadyTwo([], [y, z, x]);
    assert [y, z] + [x] == [y, z, x] && [y, z, x][1..] == [z, x];
  }

  ghost function Yields(n: nat): seq<(Event, int)> {
    if n == 0 then [] else [(Yield, 0)] + Yields(n - 1)
  }

  /** The threads take turns. */
  lemma {:induction false} Rotates(x: nat, y: nat, z: nat, cycles: nat, n: nat)
    requires Distinct(x, y, z) && cycles + n <= MAX_CYCLES && Inv(Rotation(x, y, z, cycles))
    ensures var r := Run(Rotation(x, y, z, cycles), Yields(n));
      r == match n % 3 case 0 => Rotation(x, y, z, cycles + n)
                       case 1 => Rotation(y, z, x, cycles + n)
                       case _ => Rotation(z, x, y, cycles + n)
    decreases n
  {
    hide Inv, Step;
    if n == 0 {
    } else {
      YieldOnce(x, y, z, cycles, 0);
      RunCons(Rotation(x, y, z, cycles), Yield, 0, Yields(n - 1));
      Rotates(y, z, x, cycles + 1, n - 1);
    }
  }

  lemma {:induction false} RunAppend(s: Sched, es: seq<(Event, int)>, more: seq<(Event, int)>)
    requires Inv(s) && !Run(s, es).halted
    ensures Run(s, es + more) == Run(Run(s, es), more)
    decreases |es|
  {
    hide Inv, Step;
    if es == [] {
      assert es + more == more;
    } else {
      StepKeeps(s, es[0].0, es[0].1);
      RunAppend(Step(s, es[0].0, es[0].1), es[1..], more);
      assert (es + more)[1..] == es[1..] + more;
    }
  }

  const START: seq<(Event, int)> := [(Create, 10), (Create, 20), (Timer, 0), (Timer, 0), (Timer, 0)]

  lemma Started()
    ensures Inv(Initial(0)) && Run(Initial(0), START) == Rotation(1, 2, 3, 3)
  {
    InitialInv(0);
    CreatesTwo();
    TwoTimers();
    TimerLast();
    hide *;
    var s0 := Initial(0);
    var s1 := Step(s0, Create, 10);
    RunCons(s0, Create, 10, [(Create, 20), (Timer, 0), (Timer, 0), (Timer, 0)]);
    var s2 := Step(s1, Create, 20);
    RunCons(s1, Create, 20, [(Timer, 0), (Timer, 0), (Timer, 0)]);
    var s3 := Step(s2, Timer, 0);
    RunCons(s2, Timer, 0, [(Timer, 0), (Timer, 0)]);
    var s4 := Step(s3, Timer, 0);
    RunCons(s3, Timer, 0, [(Timer, 0)]);
    RunCons(s4, Timer, 0, []);
    RunNothing(Step(s4, Timer, 0));
    StartIs();
  }

  lemma RunNothing(s: Sched)
    requires Inv(s)
    ensures Run(s, []) == s
  {
  }

  lemma StartIs()
    ensures START == [(Create, 10)] + [(Create, 20), (Timer, 0), (Timer, 0), (Timer, 0)]
    ensures [(Create, 20), (Timer, 0), (Timer, 0), (Timer, 0)] == [(Create, 20)] + [(Timer, 0), (Timer, 0), (Timer, 0)]
    ensures [(Timer, 0), (Timer, 0), (Timer, 0)] == [(Timer, 0)] + [(Timer, 0), (Timer, 0)]
    ensures [(Timer, 0), (Timer, 0)] == [(Timer, 0)] + [(Timer, 0)] && [(Timer, 0)] == [(Timer, 0)] + []
  {
  }

  lemma TwoTimers()
    ensures var s := ThreeThreads(TwoLists([2, 3], []), Three(0, 0, 0), 1, 0, QUANTUM);
      && WF(s) && WF(Step(s, Timer, 0))
      && !Step(s, Timer, 0).halted && !Step(Step(s, Timer, 0), Timer, 0).halted
      && Step(Step(s, Timer, 0), Timer, 0) == ThreeThreads(TwoLists([], [1, 2]), Three(1, 1, 0), 3, 2, QUANTUM)
  {
    TimerOnce([3], [], [0, 0, 0], 1, 2, 0);
    TimerOnce([], [1], [1, 0, 0], 2, 3, 1);
    assert [2] + [3] == [2, 3] && [] + [1] == [1] && [3] + [] == [3] && [1] + [2] == [1, 2];
    hide Step, TwoLists;
  }

  lemma CreatesTwo()
    ensures var s := Step(Initial(0), Create, 10);
      && WF(Initial(0)) && WF(s) && !s.halted && !Step(s, Create, 20).halted
      && Step(s, Create, 20) == ThreeThreads(TwoLists([2, 3], []), Three(0, 0, 0), 1, 0, QUANTUM)
  {
    var s := Sched(Queues(TwoLists([2], []), map[1 := Born(0, 1), 2 := Born(0, 2)]), 1, map[2 := Thread(false, 0)], 3,
      0,
      QUANTUM, {}, false);
    assert Initial(0).q.lists == TwoLists([], []);
    TwoListsSet([], [], [2]);
    assert [] + [2] == [2] && [2] + [3] == [2, 3];
    assert Step(Initial(0), Create, 10) == s;
    TwoListsSet([2], [], [2, 3]);
  }

  /** Three threads created at 0, 10 and 20 are on level 1 when maintenance comes, the second running.
      The oldest stays on level 1, and the youngest is promoted to level 0. */
  lemma YoungerPromoted(now: int)
    ensures Inv(Initial(0)) && Run(Initial(0), START + Yields(97)) == Rotation(2, 3, 1, 100)
    ensures var s := Rotation(2, 3, 1, 100);
      && WF(s) && s.q.lists[1] == [3, 1] && s.q.info[1].created < s.q.info[3].created
      && var r := Step(s, Yield, now);
         && !r.halted && r.current == 3 && 3 in r.q.info && r.q.info[3].priority == 0 && r.quantum == 100000
         && |r.q.lists| == LISTS && 1 in r.q.lists[1] && 1 in r.q.info && r.q.info[1].priority == 1
  {
    assert Distinct(1, 2, 3) && Distinct(2, 3, 1) && MAX_CYCLES == 100 && LEVELS == 5 && LISTS == 10;
    hide *;
    Started();
    RotationIs(1, 2, 3, 3);
    Rotates(1, 2, 3, 3, 97);
    RunAppend(Initial(0), START, Yields(97));
    RotationIs(2, 3, 1, 100);
    LastYield(Rotation(2, 3, 1, 100), now);
  }

  lemma LastYield(s: Sched, now: int)
    requires Inv(s) && s.current == 2 && s.cycles == MAX_CYCLES && s.q.lists[1] == [3, 1]
    requires s.q.info.Keys == {1, 2, 3} && s.q.info[1].created < s.q.info[3].created
    requires forall l :: 2 <= l < LEVELS ==> s.q.lists[l] == []
    requires s.q.lists[0] == [] && !s.halted
    ensures var r := Step(s, Yield, now);
      && !r.halted && r.current == 3 && 3 in r.q.info && r.q.info[3].priority == 0 && r.quantum == 100000
      && |r.q.lists| == LISTS && 1 in r.q.lists[1] && 1 in r.q.info && r.q.info[1].priority == 1
  {
    hide *;
    Marked(s);
    var v := SetStatus(s, YIELDING);
    MaintainsNow(s, now);
    YieldListed(s);
    ListedCalm(v);
    Parts(v.q, now);
    MaintainKeeps(v.q, now);
    KeptStatus(v, now);
    TidyLeveled(Maintain(v.q, now));
    AfterParting(v.(cycles := 0, q := Maintain(v.q, now)));
  }

  lemma YieldListed(s: Sched)
    requires Inv(s)
    ensures OthersListed(SetStatus(s, YIELDING))
  {
    hide OthersListed;
    CallKeeps(s, SetStatus(s, YIELDING));
  }

  lemma MaintainsNow(s: Sched, now: int)
    requires Inv(s) && s.cycles == MAX_CYCLES
    ensures var v := SetStatus(s, YIELDING);
      WF(v) && WF(v.(cycles := 0, q := Maintain(v.q, now)))
      && Step(s, Yield, now) == Pick(Requeue(v.(cycles := 0, q := Maintain(v.q, now))))
  {
    hide Maintain, Pick, Requeue, OthersListed, Settled;
  }

  lemma Marked(s: Sched)
    requires Inv(s) && s.q.info.Keys == {1, 2, 3} && s.current == 2
    ensures WF(s) && 1 in s.q.info && 3 in s.q.info && |s.q.lists| == LISTS
    ensures var v := SetStatus(s, YIELDING);
      && v.q.lists == s.q.lists && v.q.info.Keys == s.q.info.Keys && v.current == 2
      && v.q.info[1] == s.q.info[1] && v.q.info[3] == s.q.info[3] && v.q.info[2].status == YIELDING
      && v.halted == s.halted
  {
  }

  lemma TidyLeveled(q: Queues)
    requires Tidy(q)
    ensures Shape(q) && Leveled(q)
  {
  }

  lemma KeptStatus(v: Sched, now: int)
    requires Tidy(v.q) && 2 in v.q.info && SameNodes(v.q, Maintain(v.q, now))
    ensures 2 in Maintain(v.q, now).info && Maintain(v.q, now).info[2].status == v.q.info[2].status
  {
    hide Maintain, Tidy;
  }

  /** The running thread, which yields, goes to the end of a queue; the others stay, and the next one is
      taken from level 0. */
  lemma AfterParting(t: Sched)
    requires WF(t) && t.current == 2 && t.q.info[2].status == YIELDING && !t.halted
    requires 1 in t.q.lists[1] && t.q.lists[0] == [3] && Leveled(t.q)
    ensures var r := Pick(Requeue(t));
      && !r.halted && r.current == 3 && 3 in r.q.info && r.q.info[3].priority == 0 && r.quantum == 100000
      && |r.q.lists| == LISTS && 1 in r.q.lists[1] && 1 in r.q.info && r.q.info[1].priority == 1
  {
    AtLevel(t.q, 0, 3);
    AtLevel(t.q, 1, 1);
    var i, u := t.q.info[2].priority, Requeue(t);
    assert u.q.lists == t.q.lists[i := t.q.lists[i] + [2]];
    assert 1 in u.q.lists[1] && u.q.lists[0][0] == 3;
    assert u.q.info[1] == t.q.info[1] && u.q.info[3] == t.q.info[3] && !u.halted;
    hide Requeue, Enq, Shape, Leveled;
    assert Ready(u.q.lists, 0) == 0;
  }

  lemma AtLevel(q: Queues, l: nat, n: nat)
    requires Shape(q) && Leveled(q) && l < LEVELS && n in q.lists[l]
    ensures n in q.info && q.info[n].priority == l
  {
  }

  /** Of threads 1 and 3 on level 1, maintenance keeps the older one there. */
  lemma Parts(q: Queues, now: int)
    requires Tidy(q) && q.lists[1] == [3, 1] && q.info.Keys == {1, 2, 3} && q.info[1].created < q.info[3].created
    requires forall l :: LEVELS <= l < JOIN ==> q.lists[l] == []
    requires q.lists[0] == [] && forall l :: 2 <= l < LEVELS ==> q.lists[l] == []
    ensures var m := Maintain(q, now); 1 in m.lists[1] && m.lists[0] == [3]
  {
    hide Tidy, Maintain, Sorted, Share;
    SortedHere(q);
    Parted(q, now, 0);
    MaintainIs(q, now);
    LastShare();
    assert AllShares(q, 0) == [3] + [] + [] + [];
  }

  lemma SortedHere(q: Queues)
    requires Shape(q) && q.lists[1] == [3, 1] && 1 in q.info && 3 in q.info && q.info[1].created < q.info[3].created
    requires forall l :: 2 <= l < LEVELS ==> q.lists[l] == []
    ensures Sorted(q, 0) == [1, 3] && Sorted(q, 1) == Sorted(q, 2) == Sorted(q, 3) == []
  {
    SortsTwo(q.info);
    hide Shape;
  }

  lemma LastShare()
    ensures Share([1, 3], 0, 0) == [3] && Share([], 1, 0) == Share([], 2, 0) == Share([], 3, 0) == []
  {
    assert Cut(2, 0, 1) == 1;
  }

  lemma SortsTwo(info: map<nat, Info>)
    requires 1 in info && 3 in info && info[1].created < info[3].created
    ensures ByAge([], [3, 1], info) == [1, 3]
  {
    assert AgePos([3], 1, info) == 0;
    assert InsertAt([3], 0, 1) == [1, 3];
    assert ByAge([3], [1], info) == ByAge([1, 3], [], info);
    assert ByAge([], [3, 1], info) == ByAge([3], [1], info);
  }
}
