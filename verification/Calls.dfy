/** What each call into the scheduler of my_pthread/my_pthread.c does to the caller and to the queues, in
    plain numbers: where the caller goes, who runs next and for how long, and when maintenance comes. */
module Calls {
  import opened RunQueues
  import opened Dispatch

  /** The first thread of level `l`, the first level that is not empty, runs for 100 ms times `l + 1`. */
  ghost predicate PickedFrom(lists: seq<seq<nat>>, r: Sched, l: nat)
    requires |lists| == 10
  {
    && l < 5 && lists[l] != [] && (forall k :: 0 <= k < l ==> lists[k] == [])
    && r.current == lists[l][0] && r.q.lists == lists[l := lists[l][1..]]
    && r.quantum == 100000 * (l + 1) && !r.halted
  }

  /** With the queues `lists` the next thread is picked; if there is none, the scheduler halts. */
  ghost predicate Picked(lists: seq<seq<nat>>, r: Sched)
    requires |lists| == 10
  {
    if forall l :: 0 <= l < 5 ==> lists[l] == [] then r.halted && r.q.lists == lists
    else exists l: nat :: PickedFrom(lists, r, l)
  }

  lemma PickIs(s: Sched)
    requires Shape(s.q) && Leveled(s.q) && !s.halted
    ensures Picked(s.q.lists, Pick(s)) && Pick(s).q.info == s.q.info
    ensures Pick(s) == s.(q := Pick(s).q, current := Pick(s).current, quantum := Pick(s).quantum,
      halted := Pick(s).halted)
  {
    var l := Ready(s.q.lists, 0);
    hide Ready, Shape;
    if l < LEVELS {
      assert s.q.info[s.q.lists[l][0]].priority == l;
      assert PickedFrom(s.q.lists, Pick(s), l);
    }
  }

  /** What stays the same in a call that schedules while no maintenance is due. */
  ghost predicate Plainly(s: Sched, r: Sched) {
    r.cycles == s.cycles + 1 && r.threadNum == s.threadNum && r.threads == s.threads && r.exited == s.exited
  }

  /** The call ends up in `schedule`. */
  ghost predicate Schedules(s: Sched, e: Event) {
    match e
    case Create => false
    case Join(t) => t in s.threads && !s.threads[t].isDead
    case _ => true
  }

  /** The state in which it does. */
  ghost function Called(s: Sched, e: Event): Sched
    requires WF(s)
  {
    match e
    case Create => s
    case Yield => SetStatus(s, YIELDING)
    case Timer => s
    case Exit(arg) =>
      SetStatus(if s.current in s.threads
                then s.(threads := s.threads[s.current := s.threads[s.current].(exitArg := arg)]) else s, EXITING)
    case Return => SetStatus(s, EXITING)
    case Join(t) => SetStatus(Joining(s, t), JOINING)
  }

  lemma CalledIs(s: Sched, e: Event, now: int)
    requires Inv(s) && Schedules(s, e)
    ensures var v := Called(s, e);
      && OthersListed(v) && Step(s, e, now) == Schedule(v, now) && !v.halted
      && v == s.(q := v.q, threads := v.threads) && v.q.lists == s.q.lists
  {
    hide Schedule;
    var v := Called(s, e);
    if v != s {
      CallShape(s, e);
      hide OthersListed;
      CallKeeps(s, v);
    }
  }

  lemma CallShape(s: Sched, e: Event)
    requires Inv(s) && Schedules(s, e)
    ensures var r := Called(s, e);
      && r == s.(q := r.q, threads := r.threads) && r.q.lists == s.q.lists && r.q.info.Keys == s.q.info.Keys
      && (forall n :: n in s.q.info && n != s.current ==> r.q.info[n] == s.q.info[n])
      && r.q.info[s.current].priority == s.q.info[s.current].priority
      && (r.q.info[s.current].status == JOINING ==> r.q.info[s.current].joinee in s.threads)
      && r.threads.Keys == s.threads.Keys && forall t :: t in s.threads ==> r.threads[t].isDead == s.threads[t].isDead
  {
    hide Count, Settled, Leveled, Simple;
  }

  /** The info of the running thread, set. */
  ghost function With(s: Sched, i: Info): map<nat, Info> {
    s.q.info[s.current := i]
  }

  /** A quantum runs out: the thread sinks one level, but not below level 4, to the end of the queue. */
  lemma TimerSinks(s: Sched, now: int)
    requires Inv(s) && s.cycles < 100 && s.q.info[s.current].status == NEUTRAL
    ensures var r, c, i := Step(s, Timer, now), s.current, s.q.info[s.current];
      var d := if i.priority < 4 then i.priority + 1 else 4;
      && d < 5 && Picked(s.q.lists[d := s.q.lists[d] + [c]], r)
      && r.q.info == With(s, i.(priority := d)) && Plainly(s, r)
  {
    PriorityBound(s);
    Requeued(s, Timer, now);
    RequeueNeutral(s.(cycles := s.cycles + 1));
    hide *;
  }

  lemma RequeueNeutral(t: Sched)
    requires WF(t) && t.q.info[t.current].status == NEUTRAL && t.q.info[t.current].priority < 5
    ensures var i := t.q.info[t.current];
      var d := if i.priority < 4 then i.priority + 1 else 4;
      Requeue(t) == t.(q := Queues(t.q.lists[d := t.q.lists[d] + [t.current]], With(t, i.(priority := d))))
  {
  }

  /** A thread that had waited for another, and has not yielded since, goes back to the join list. */
  lemma TimerStrands(s: Sched, now: int)
    requires Inv(s) && s.cycles < 100 && s.q.info[s.current].status == JOINING
    ensures var r := Step(s, Timer, now);
      Picked(s.q.lists[9 := [s.current] + s.q.lists[9]], r) && r.q.info == s.q.info && Plainly(s, r)
  {
    Requeued(s, Timer, now);
    RequeueJoining(s.(cycles := s.cycles + 1));
    hide *;
  }

  lemma RequeueJoining(t: Sched)
    requires WF(t) && t.q.info[t.current].status == JOINING
    ensures Requeue(t) == t.(q := Queues(t.q.lists[9 := [t.current] + t.q.lists[9]], t.q.info))
  {
  }

  /** A thread that yields goes to the end of its own level, and is no longer marked. */
  lemma YieldRequeues(s: Sched, now: int)
    requires Inv(s) && s.cycles < 100
    ensures var r, c, i := Step(s, Yield, now), s.current, s.q.info[s.current];
      && i.priority < 5 && Picked(s.q.lists[i.priority := s.q.lists[i.priority] + [c]], r)
      && r.q.info == With(s, i.(status := NEUTRAL)) && Plainly(s, r)
  {
    PriorityBound(s);
    Requeued(s, Yield, now);
    RequeueYielding(s);
    hide *;
  }

  lemma RequeueYielding(s: Sched)
    requires WF(s) && s.q.info[s.current].priority < 5
    ensures var t, i := SetStatus(s, YIELDING).(cycles := s.cycles + 1), s.q.info[s.current];
      Requeue(t) == t.(q := Queues(s.q.lists[i.priority := s.q.lists[i.priority] + [s.current]],
                                   With(s, i.(status := NEUTRAL))))
  {
    var i := s.q.info[s.current];
    assert i.(status := YIELDING).(priority := i.priority).(status := NEUTRAL) == i.(status := NEUTRAL);
    assert i.(status := YIELDING).(status := NEUTRAL) == i.(status := NEUTRAL);
  }

  /** A thread that joins one that is alive goes to the front of the join list, waiting for it. */
  lemma JoinWaits(s: Sched, t: nat, now: int)
    requires Inv(s) && s.cycles < 100 && t in s.threads && !s.threads[t].isDead
    ensures var r, c, i := Step(s, Join(t), now), s.current, s.q.info[s.current];
      && Picked(s.q.lists[9 := [c] + s.q.lists[9]], r)
      && r.q.info == With(s, i.(status := JOINING, joinee := t)) && Plainly(s, r)
  {
    Requeued(s, Join(t), now);
    RequeueJoining(Called(s, Join(t)).(cycles := s.cycles + 1));
    JoiningInfo(s, t);
    hide *;
  }

  lemma JoiningInfo(s: Sched, t: nat)
    requires WF(s)
    ensures var v := Called(s, Join(t));
      && v.q.info == With(s, s.q.info[s.current].(status := JOINING, joinee := t))
      && v.current == s.current && v.q.lists == s.q.lists && v == s.(q := v.q)
  {
  }

  /** Joining a thread that is dead or unknown changes nothing. */
  lemma JoinReturns(s: Sched, t: nat, now: int)
    requires Inv(s) && (t !in s.threads || s.threads[t].isDead)
    ensures Step(s, Join(t), now) == s
  {
  }

  /** A thread that exits or returns goes nowhere; the waiters for it are queued and the next thread runs.
      A return leaves the exit value as it is. */
  lemma ExitLeaves(s: Sched, e: Event, now: int)
    requires Inv(s) && s.cycles < 100 && (e.Exit? || e.Return?)
    ensures var r, c := Step(s, e, now), s.current;
      var info := With(s, s.q.info[c].(status := EXITING));
      && Tidy(Queues(s.q.lists, info)) && Picked(Wake(Queues(s.q.lists, info), c).lists, r) && r.q.info == info
      && r.cycles == s.cycles + 1 && r.threadNum == s.threadNum && r.exited == s.exited + {c}
      && r.threads == if c in s.threads
                      then s.threads[c := Thread(true, if e.Exit? then e.arg else s.threads[c].exitArg)] else s.threads
  {
    Requeued(s, e, now);
    ExitingInfo(s, e);
    hide *;
    var v := Called(s, e);
    ListedCalm(v);
    WakeIs(v.q, s.current);
    RequeueExiting(v.(cycles := s.cycles + 1));
  }

  lemma RequeueExiting(t: Sched)
    requires WF(t) && t.q.info[t.current].status == EXITING
    ensures Requeue(t) == t.(threads := MarkDead(t.threads, t.current), q := Wake(t.q, t.current),
                             exited := t.exited + {t.current})
  {
  }

  lemma ExitingInfo(s: Sched, e: Event)
    requires WF(s) && (e.Exit? || e.Return?)
    ensures var v, c := Called(s, e), s.current;
      && WF(v) && v.q == Queues(s.q.lists, With(s, s.q.info[c].(status := EXITING)))
        && v == s.(q := v.q, threads := v.threads)
      && v.q.info[c].status == EXITING
      && MarkDead(v.threads, c) == if c in s.threads
           then s.threads[c := Thread(true, if e.Exit? then e.arg else s.threads[c].exitArg)] else s.threads
  {
  }

  /** A new thread goes to the end of level 0, with the next number; nothing else changes. */
  lemma CreateQueues(s: Sched, now: int)
    requires Inv(s)
    ensures var r, n := Step(s, Create, now), s.threadNum;
      && n !in s.threads && n !in s.q.info
      && r.q.lists == s.q.lists[0 := s.q.lists[0] + [n]] && r.q.info == s.q.info[n := Info(0, now, 0.0, NEUTRAL, 0)]
      && r == s.(q := r.q, threads := s.threads[n := Thread(false, 0)], threadNum := n + 1)
  {
    hide Count, Settled;
    var i := Info(0, now, 0.0, NEUTRAL, 0);
    assert i.(priority := 0) == i;
    assert s.q.info[s.threadNum := i][s.threadNum := i] == s.q.info[s.threadNum := i];
  }

  lemma PriorityBound(s: Sched)
    requires Inv(s)
    ensures s.q.info[s.current].priority < 5
  {
    hide OthersListed, Settled;
  }

  /** Without maintenance, scheduling is requeueing and picking. */
  lemma Requeued(s: Sched, e: Event, now: int)
    requires Inv(s) && Schedules(s, e) && s.cycles < 100
    ensures WF(Called(s, e)) && OthersListed(Called(s, e))
    ensures var t := Called(s, e).(cycles := s.cycles + 1); var u, r := Requeue(t), Step(s, e, now);
      && WF(t) && Shape(u.q) && Picked(u.q.lists, r) && r.q.info == u.q.info
      && r == u.(q := r.q, current := r.current, quantum := r.quantum, halted := r.halted)
  {
    hide Requeue, Pick, Inv;
    CalledIs(s, e, now);
    var v := Called(s, e);
    TickKeeps(v, now);
    var t := Tick(v, now);
    assert t == v.(cycles := s.cycles + 1);
    hide OthersListed, Tick;
    RequeueKeeps(t);
    Listed(Requeue(t));
    PickIs(Requeue(t));
  }

  lemma Listed(s: Sched)
    requires AllListed(s)
    ensures Shape(s.q) && Leveled(s.q)
  {
    hide Count, Settled;
  }

  // ---- When maintenance comes ------------------------------------------------------------------

  /** How many calls of `schedule` a run has made. */
  ghost function CallCount(s: Sched, es: seq<(Event, int)>): nat
    requires Inv(s)
    decreases |es|
  {
    if es == [] then 0
    else
      StepKeeps(s, es[0].0, es[0].1);
      var r := Step(s, es[0].0, es[0].1);
      (if Schedules(s, es[0].0) then 1 else 0) + if r.halted then 0 else CallCount(r, es[1..])
  }

  /** A call that schedules counts up to 100, and at 100 the queues are redistributed and the count starts
      again; other calls do neither. */
  lemma OneCall(s: Sched, e: Event, now: int)
    requires Inv(s) && s.cycles <= 100
    ensures Schedules(s, e) ==>
      var v := Called(s, e);
      var t := if s.cycles == 100 then v.(cycles := 0, q := Maintain(v.q, now)) else v.(cycles := s.cycles + 1);
      WF(v) && WF(t) && Step(s, e, now) == Pick(Requeue(t)) && Step(s, e, now).cycles == t.cycles
    ensures !Schedules(s, e) ==> Step(s, e, now).cycles == s.cycles
  {
    hide Maintain, OthersListed, Ready, Wake, Enq, Deq;
    if Schedules(s, e) { CalledIs(s, e, now); }
  }

  lemma CallsUnfold(s: Sched, es: seq<(Event, int)>)
    requires Inv(s) && es != []
    ensures var r := Step(s, es[0].0, es[0].1);
      && (r.halted || Inv(r)) && Run(s, es) == (if r.halted then r else Run(r, es[1..]))
      && CallCount(s, es)
         == (if Schedules(s, es[0].0) then 1 else 0) + if r.halted then 0 else CallCount(r, es[1..])
  {
    hide Inv, Step, Schedules;
    StepKeeps(s, es[0].0, es[0].1);
  }

  lemma NoCalls(s: Sched)
    requires Inv(s)
    ensures CallCount(s, []) == 0 && Run(s, []) == s
  {
    hide Inv;
  }

  lemma OneMore(c: nat, c': nat, n: nat, calls: bool)
    requires c <= 100 && c' == if calls then (if c == 100 then 0 else c + 1) else c
    ensures c' <= 100 && (c' + n) % 101 == (c + (if calls then 1 else 0) + n) % 101
    ensures c' % 101 == c'
  {
  }

  lemma {:induction false} CyclesCount(s: Sched, es: seq<(Event, int)>)
    requires Inv(s) && s.cycles <= 100
    ensures Run(s, es).cycles <= 100 && Run(s, es).cycles == (s.cycles + CallCount(s, es)) % 101
    decreases |es|
  {
    hide *;
    if es == [] {
      NoCalls(s);
    } else {
      var e, r := es[0], Step(s, es[0].0, es[0].1);
      CallsUnfold(s, es);
      OneCall(s, e.0, e.1);
      var n := if r.halted then 0 else CallCount(r, es[1..]);
      OneMore(s.cycles, r.cycles, n, Schedules(s, e.0));
      if !r.halted { CyclesCount(r, es[1..]); }
    }
  }

  lemma StartsAtNought(now: int)
    ensures Inv(Initial(now)) && Initial(now).cycles == 0
  {
    InitialInv(now);
  }

  /** After every run, the next call of `schedule` redistributes the queues if and only if it is the 101st
      since the start or since the last time. */
  lemma EveryHundredAndFirst(now: int, es: seq<(Event, int)>, e: Event, time: int)
    ensures Inv(Initial(now))
    ensures var s, n := Run(Initial(now), es), CallCount(Initial(now), es);
      !s.halted && Schedules(s, e) ==>
        var v := Called(s, e);
        var q := if (n + 1) % 101 == 0 then Maintain(v.q, time) else v.q;
        var t := v.(q := q, cycles := (n + 1) % 101);
        WF(v) && WF(t) && Step(s, e, time) == Pick(Requeue(t))
  {
    hide *;
    StartsAtNought(now);
    CyclesCount(Initial(now), es);
    var s, n := Run(Initial(now), es), CallCount(Initial(now), es);
    assert s.cycles == 100 <==> (n + 1) % 101 == 0;
    if !s.halted && Schedules(s, e) {
      OneCall(s, e, time);
      var v := Called(s, e);
      assert v.(q := v.q, cycles := s.cycles + 1) == v.(cycles := s.cycles + 1);
      assert s.cycles < 100 ==> (n + 1) % 101 == s.cycles + 1;
    }
  }
}
