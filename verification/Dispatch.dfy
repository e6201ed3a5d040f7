/** The five-level scheduler of my_pthread/my_pthread.c as a state machine: thread creation,
    yielding, timer expiry, joining and exit, each followed by a call of `schedule`. */
module Dispatch {
  import opened RunQueues

  const QUANTUM: nat := 100000
  const MAX_CYCLES: nat := 100

  datatype Thread = Thread(isDead: bool, exitArg: int)

  /** `exited` holds the threads that have exited; `halted` is set where `schedule` returns
      because nothing is left to run. The main thread has id 1 and is not in `threads`. */
  datatype Sched = Sched(q: Queues, current: nat, threads: map<nat, Thread>, threadNum: nat,
                         cycles: nat, quantum: nat, exited: set<nat>, halted: bool)

  // ---- Waking the threads that wait for one that exits --------------------------------------

  /** Position of the first waiter for `t` on the join list `jl`, `|jl|` if none. */
  ghost function FirstWaiter(jl: seq<nat>, info: map<nat, Info>, t: nat): (k: nat)
    requires Known(jl, info)
    ensures k <= |jl|
    ensures k < |jl| ==> info[jl[k]].joinee == t
    ensures forall i :: 0 <= i < k ==> info[jl[i]].joinee != t
  {
    if jl == [] || info[jl[0]].joinee == t then 0 else 1 + FirstWaiter(jl[1..], info, t)
  }

  lemma FirstWaiterIs(jl: seq<nat>, info: map<nat, Info>, t: nat, k: nat)
    requires Known(jl, info) && k <= |jl| && (k < |jl| ==> info[jl[k]].joinee == t)
    requires forall i :: 0 <= i < k ==> info[jl[i]].joinee != t
    ensures FirstWaiter(jl, info, t) == k
  {
  }

  ghost function Without(jl: seq<nat>, k: nat): seq<nat>
    requires k < |jl|
  {
    jl[..k] + jl[k + 1..]
  }

  ghost function Unlist(s: Queues, k: nat): (r: Queues)
    requires Shape(s) && k < |s.lists[JOIN]|
    ensures Shape(r)
  {
    s.(lists := s.lists[JOIN := Without(s.lists[JOIN], k)])
  }

  /** One waiter taken off the join list and put on the run queue of its stored priority. */
  ghost function WakeOne(s: Queues, k: nat): (r: Queues)
    requires Shape(s) && k < |s.lists[JOIN]|
    ensures Shape(r) && r.lists[JOIN] == Without(s.lists[JOIN], k)
  {
    var n := s.lists[JOIN][k];
    assert n in s.info;
    Enq(Unlist(s, k), s.info[n].priority, n)
  }

  /** The scan restarts at the head after each waiter it moves. */
  ghost function Wake(s: Queues, t: nat): (r: Queues)
    requires Shape(s)
    ensures Shape(r)
    decreases if |s.lists| == LISTS then |s.lists[JOIN]| else 0
  {
    var jl := s.lists[JOIN];
    var k := FirstWaiter(jl, s.info, t);
    if k == |jl| then s else Wake(WakeOne(s, k), t)
  }

  // ---- The machine -------------------------------------------------------------------------

  ghost predicate WF(s: Sched)
  {
    Shape(s.q) && s.current in s.q.info
  }

  ghost function SetStatus(s: Sched, st: Status): Sched
    requires WF(s)
  {
    s.(q := s.q.(info := s.q.info[s.current := s.q.info[s.current].(status := st)]))
  }

  ghost function Tick(s: Sched, now: int): (r: Sched)
    requires WF(s)
    ensures WF(r)
  {
    if s.cycles + 1 > MAX_CYCLES then s.(cycles := 0, q := Maintain(s.q, now)) else s.(cycles := s.cycles + 1)
  }

  ghost function Demoted(p: nat): nat {
    if p < LEVELS - 1 then p + 1 else p
  }

  ghost function MarkDead(threads: map<nat, Thread>, t: nat): map<nat, Thread>
  {
    if t in threads then threads[t := threads[t].(isDead := true)] else threads
  }

  ghost function Requeue(s: Sched): (r: Sched)
    requires WF(s)
    ensures Shape(r.q)
  {
    var c := s.current;
    match s.q.info[c].status
    case YIELDING =>
      var q := Enq(s.q, s.q.info[c].priority, c);
      s.(q := q.(info := q.info[c := q.info[c].(status := NEUTRAL)]))
    case EXITING =>
      s.(threads := MarkDead(s.threads, c), q := Wake(s.q, c), exited := s.exited + {c})
    case JOINING =>
      s.(q := s.q.(lists := s.q.lists[JOIN := [c] + s.q.lists[JOIN]]))
    case NEUTRAL =>
      s.(q := Enq(s.q, Demoted(s.q.info[c].priority), c))
  }

  /** First non-empty run queue from `i` on, `LEVELS` if all are empty. */
  ghost function Ready(lists: seq<seq<nat>>, i: nat): (l: nat)
    requires i <= LEVELS <= |lists|
    ensures i <= l <= LEVELS && (l < LEVELS ==> lists[l] != [])
    ensures forall k :: i <= k < l ==> lists[k] == []
    decreases LEVELS - i
  {
    if i == LEVELS || lists[i] != [] then i else Ready(lists, i + 1)
  }

  ghost function Pick(s: Sched): (r: Sched)
    requires Shape(s.q)
    ensures |r.q.lists| == LISTS
  {
    var l := Ready(s.q.lists, 0);
    if l == LEVELS then s.(halted := true)
    else
      var n := s.q.lists[l][0];
      assert n in s.q.info;
      s.(q := Deq(s.q, l), current := n, quantum := QUANTUM * (s.q.info[n].priority + 1))
  }

  ghost function Schedule(s: Sched, now: int): (r: Sched)
    requires WF(s)
    ensures |r.q.lists| == LISTS
  {
    Pick(Requeue(Tick(s, now)))
  }

  datatype Event = Create | Yield | Timer | Exit(arg: int) | Return | Join(t: nat)

  /** One call into the library, or a timer signal, at clock reading `now`. */
  ghost function Step(s: Sched, e: Event, now: int): (r: Sched)
    requires WF(s)
  {
    if s.halted then s else
    match e
    case Create =>
      var n := s.threadNum;
      var q := s.q.(info := s.q.info[n := Info(0, now, 0.0, NEUTRAL, 0)]);
      s.(q := Enq(q, 0, n), threads := s.threads[n := Thread(false, 0)], threadNum := n + 1)
    case Yield => Schedule(SetStatus(s, YIELDING), now)
    case Timer => Schedule(s, now)
    case Exit(arg) =>
      var s := if s.current in s.threads
               then s.(threads := s.threads[s.current := s.threads[s.current].(exitArg := arg)]) else s;
      Schedule(SetStatus(s, EXITING), now)
    case Return => Schedule(SetStatus(s, EXITING), now)
    case Join(t) =>
      if t in s.threads && !s.threads[t].isDead
      then Schedule(SetStatus(Joining(s, t), JOINING), now)
      else s
  }

  ghost function Joining(s: Sched, t: nat): Sched
    requires WF(s)
  {
    s.(q := s.q.(info := s.q.info[s.current := s.q.info[s.current].(joinee := t)]))
  }

  // ---- The invariant -----------------------------------------------------------------------

  ghost predicate Alive(s: Sched, n: nat) {
    n in s.q.info && n !in s.exited
  }

  ghost predicate AtRest(st: Status) {
    st == NEUTRAL || st == JOINING
  }

  /** Bookkeeping that holds at every point of a step. */
  ghost predicate Core(s: Sched)
  {
    && Shape(s.q) && Leveled(s.q) && Simple(s.q.lists)
    && (forall l :: LEVELS <= l < JOIN ==> s.q.lists[l] == [])
    && s.current in s.q.info && s.exited <= s.q.info.Keys
    && s.threads.Keys == s.q.info.Keys - {1}
    && (forall n :: n in s.q.info ==> 0 < n < s.threadNum)
    && (forall t :: t in s.threads ==> (s.threads[t].isDead <==> t in s.exited))
    && (forall n :: n in s.q.info && s.q.info[n].status == JOINING ==> s.q.info[n].joinee in s.threads)
    && (forall k :: 0 <= k < |s.q.lists[JOIN]| ==> s.q.info[s.q.lists[JOIN][k]].status == JOINING)
  }

  /** Thread `n` is at rest, and if it came back from a join its joinee is dead. */
  ghost predicate Settled(s: Sched, n: nat)
    requires Core(s) && n in s.q.info
  {
    && AtRest(s.q.info[n].status)
    && (s.q.info[n].status == JOINING && n !in s.q.lists[JOIN] ==> s.threads[s.q.info[n].joinee].isDead)
  }

  /** Everyone but the running thread is on exactly one list, once, and settled. */
  ghost predicate OthersListed(s: Sched)
    ensures OthersListed(s) ==> WF(s)
  {
    && Core(s) && s.current !in s.exited
    && (forall n :: Count(s.q.lists, n) == if Alive(s, n) && n != s.current then 1 else 0)
    && (forall n :: Alive(s, n) && n != s.current ==> Settled(s, n))
  }

  /** Everyone alive is on exactly one list, once, and settled. */
  ghost predicate AllListed(s: Sched)
    ensures AllListed(s) ==> WF(s)
  {
    && Core(s)
    && (forall n :: Count(s.q.lists, n) == if Alive(s, n) then 1 else 0)
    && (forall n :: Alive(s, n) ==> Settled(s, n))
  }

  ghost predicate Inv(s: Sched)
    ensures Inv(s) ==> WF(s) && !s.halted
  {
    && OthersListed(s) && Settled(s, s.current) && !s.halted
    && s.quantum == QUANTUM * (s.q.info[s.current].priority + 1)
  }

  lemma UnlistKeeps(s: Queues, k: nat)
    requires Shape(s) && Simple(s.lists) && k < |s.lists[JOIN]|
    ensures var n, r := s.lists[JOIN][k], Unlist(s, k);
      && Count(r.lists, n) == 0 && (Leveled(s) ==> Leveled(r))
      && forall x :: Count(r.lists, x) == Count(s.lists, x) - (if x == n then 1 else 0)
  {
    hide Count;
    var jl := s.lists[JOIN];
    forall x ensures Count(Unlist(s, k).lists, x) == Count(s.lists, x) - (if x == jl[k] then 1 else 0) {
      CountUpdate(s.lists, JOIN, Without(jl, k), x);
      assert jl == jl[..k] + [jl[k]] + jl[k + 1..];
    }
  }

  /** Waking a waiter moves it from the join list to a run queue and changes nothing else about it. */
  lemma WakeOneKeeps(s: Queues, k: nat)
    requires Tidy(s) && k < |s.lists[JOIN]|
    ensures Tidy(WakeOne(s, k)) && WakeOne(s, k).info == s.info
    ensures forall x :: Count(WakeOne(s, k).lists, x) == Count(s.lists, x)
    ensures forall l :: LEVELS <= l < JOIN ==> WakeOne(s, k).lists[l] == s.lists[l]
  {
    hide Count, Leveled;
    var n := s.lists[JOIN][k];
    UnlistKeeps(s, k);
    EnqKeeps(Unlist(s, k), s.info[n].priority, n);
  }

  /** Those of `jl` that wait for another thread than `t`, in order. */
  ghost function Others(jl: seq<nat>, info: map<nat, Info>, t: nat): seq<nat>
    requires Known(jl, info)
  {
    if jl == [] then []
    else (if info[jl[0]].joinee != t then [jl[0]] else []) + Others(jl[1..], info, t)
  }

  /** Those of `jl` that wait for `t` and have priority `l`, in order. */
  ghost function Woken(jl: seq<nat>, info: map<nat, Info>, t: nat, l: nat): seq<nat>
    requires Known(jl, info)
  {
    if jl == [] then []
    else (if info[jl[0]].joinee == t && info[jl[0]].priority == l then [jl[0]] else []) + Woken(jl[1..], info, t, l)
  }

  lemma {:induction false} OthersHas(jl: seq<nat>, info: map<nat, Info>, t: nat, n: nat)
    requires Known(jl, info)
    ensures n in Others(jl, info, t) <==> n in jl && info[n].joinee != t
  {
    if jl == [] {
    } else {
      OthersHas(jl[1..], info, t, n);
      assert jl == [jl[0]] + jl[1..];
    }
  }

  /** The first waiter leaves the join list; what remains is judged as before. */
  lemma {:induction false} OthersWithout(jl: seq<nat>, info: map<nat, Info>, t: nat)
    requires Known(jl, info)
    ensures var k := FirstWaiter(jl, info, t);
      if k == |jl| then Others(jl, info, t) == jl
      else Known(Without(jl, k), info) && Others(jl, info, t) == Others(Without(jl, k), info, t)
  {
    if jl != [] && info[jl[0]].joinee == t {
      assert Without(jl, 0) == jl[1..];
    } else if jl != [] {
      OthersWithout(jl[1..], info, t);
      if FirstWaiter(jl, info, t) < |jl| { WithoutTail(jl, info, t); }
    }
  }

  lemma {:induction false} WokenWithout(jl: seq<nat>, info: map<nat, Info>, t: nat, l: nat)
    requires Known(jl, info)
    ensures var k := FirstWaiter(jl, info, t);
      if k == |jl| then Woken(jl, info, t, l) == []
      else && Known(Without(jl, k), info)
           && Woken(jl, info, t, l) == (if info[jl[k]].priority == l then [jl[k]] else [])
             + Woken(Without(jl, k), info, t, l)
  {
    if jl != [] && info[jl[0]].joinee == t {
      assert Without(jl, 0) == jl[1..];
    } else if jl != [] {
      hide Without;
      WokenWithout(jl[1..], info, t, l);
      if FirstWaiter(jl, info, t) < |jl| { WithoutTail(jl, info, t); }
    }
  }

  lemma WithoutTail(jl: seq<nat>, info: map<nat, Info>, t: nat)
    requires Known(jl, info) && jl != [] && info[jl[0]].joinee != t && FirstWaiter(jl, info, t) < |jl|
    ensures var k := FirstWaiter(jl, info, t);
      && k == 1 + FirstWaiter(jl[1..], info, t)
      && Known(Without(jl, k), info)
      && Without(jl, k)[0] == jl[0] && Without(jl, k)[1..] == Without(jl[1..], k - 1)
  {
    var k := FirstWaiter(jl, info, t);
    hide FirstWaiter;
    WithoutAt(jl, k);
    forall i | 0 <= i < |Without(jl, k)| ensures Without(jl, k)[i] in info {
      assert Without(jl, k)[i] == if i < k then jl[i] else jl[i + 1];
    }
  }

  lemma WithoutAt(jl: seq<nat>, k: nat)
    requires 0 < k < |jl|
    ensures Without(jl, k)[0] == jl[0] && Without(jl, k)[1..] == Without(jl[1..], k - 1)
  {
  }

  /** The exit of `t` moves exactly the threads that wait for `t`, each to the end of the run queue
      of its stored priority and in join-list order, and leaves the other waiters in order. */
  lemma {:induction false} WakeIs(s: Queues, t: nat)
    requires Tidy(s)
    ensures var r, jl := Wake(s, t), s.lists[JOIN];
      && Tidy(r) && r.info == s.info && r.lists[JOIN] == Others(jl, s.info, t)
      && (forall l :: 0 <= l < LEVELS ==> r.lists[l] == s.lists[l] + Woken(jl, s.info, t, l))
      && (forall l :: LEVELS <= l < JOIN ==> r.lists[l] == s.lists[l])
      && (forall x :: Count(r.lists, x) == Count(s.lists, x))
    decreases |s.lists[JOIN]|
  {
    hide Tidy, Count, Others, Woken, Without;
    var jl := s.lists[JOIN];
    var k := FirstWaiter(jl, s.info, t);
    if k < |jl| {
      WakeOneKeeps(s, k);
      WakeOneIs(s, k);
      WithoutShorter(jl, k);
      WakeIs(WakeOne(s, k), t);
    }
    hide Wake, WakeOne, Shape;
    OthersWithout(jl, s.info, t);
    forall l: nat | l < LEVELS
      ensures if k == |jl| then Woken(jl, s.info, t, l) == []
              else (var first := if s.info[jl[k]].priority == l then [jl[k]] else [];
                    Woken(jl, s.info, t, l) == first + Woken(Without(jl, k), s.info, t, l))
    {
      WokenWithout(jl, s.info, t, l);
    }
  }

  lemma WithoutShorter(jl: seq<nat>, k: nat)
    requires k < |jl|
    ensures |Without(jl, k)| == |jl| - 1
  {
  }

  lemma WakeOneIs(s: Queues, k: nat)
    requires Shape(s) && k < |s.lists[JOIN]|
    ensures var n := s.lists[JOIN][k];
      && n in s.info && s.info[n].priority < LEVELS
      && forall l :: 0 <= l < LEVELS ==>
        WakeOne(s, k).lists[l] == s.lists[l] + (if s.info[n].priority == l then [n] else [])
  {
  }

  // ---- Every step keeps the invariant --------------------------------------------------------

  lemma ListedCalm(s: Sched)
    requires OthersListed(s)
    ensures Tidy(s.q) && Count(s.q.lists, s.current) == 0
    ensures forall l :: LEVELS <= l < JOIN ==> s.q.lists[l] == []
  {
  }

  /** Rearranging the lists without changing who is on them keeps everyone listed. */
  lemma RearrangeKeeps(s: Sched, q: Queues, cycles: nat)
    requires OthersListed(s) && Tidy(q) && SameNodes(s.q, q)
    requires forall l :: LEVELS <= l < JOIN ==> q.lists[l] == []
    ensures OthersListed(s.(q := q, cycles := cycles))
  {
    hide Count;
    var r := s.(q := q, cycles := cycles);
    assert Core(r);
    forall n | Alive(r, n) && n != r.current ensures Settled(r, n) { assert Settled(s, n); }
  }

  lemma TickKeeps(s: Sched, now: int)
    requires OthersListed(s)
    ensures OthersListed(Tick(s, now))
    ensures var r := Tick(s, now); var i, i' := s.q.info[s.current], r.q.info[s.current];
      r.current == s.current && i'.status == i.status && i'.joinee == i.joinee && r.threads == s.threads
      && r.exited == s.exited && r.halted == s.halted && r.q.lists[JOIN] == s.q.lists[JOIN]
      && r.q.info.Keys == s.q.info.Keys && forall n :: n in s.q.info ==> r.q.info[n].joinee == s.q.info[n].joinee
  {
    hide Count, Maintain, AllShares, Tidy, Core, Settled;
    ListedCalm(s);
    if s.cycles + 1 > MAX_CYCLES {
      MaintainKeeps(s.q, now);
      MaintainIs(s.q, now);
      RearrangeKeeps(s, Maintain(s.q, now), 0);
    } else {
      SameNodesRefl(s.q);
      RearrangeKeeps(s, s.q, s.cycles + 1);
    }
  }

  lemma QueueCore(s: Sched, i: nat, q: Queues)
    requires OthersListed(s) && i < LEVELS
      && (s.q.info[s.current].status != YIELDING || s.q.info[s.current].priority == i)
    requires var e := Enq(s.q, i, s.current);
      q.lists == e.lists && q.info == e.info[s.current := e.info[s.current].(status := NEUTRAL)]
    ensures Core(s.(q := q)) && q.lists[JOIN] == s.q.lists[JOIN]
    ensures forall x :: Count(q.lists, x) == Count(s.q.lists, x) + (if x == s.current then 1 else 0)
  {
    hide Count, Settled;
    var c, e := s.current, Enq(s.q, i, s.current);
    Absent(s.q.lists, c);
    EnqKeeps(s.q, i, c);
    assert forall l :: LEVELS <= l < LISTS ==> q.lists[l] == s.q.lists[l];
    assert q.info.Keys == s.q.info.Keys;
    assert Leveled(q);
  }

  /** Queueing the running thread at level `i`; a thread that yields becomes NEUTRAL. */
  lemma QueueCurrent(s: Sched, i: nat, q: Queues)
    requires OthersListed(s) && i < LEVELS
      && (s.q.info[s.current].status != YIELDING || s.q.info[s.current].priority == i)
    requires var e := Enq(s.q, i, s.current);
      q.lists == e.lists && q.info == e.info[s.current := e.info[s.current].(status := NEUTRAL)]
    ensures AllListed(s.(q := q))
  {
    QueueCore(s, i, q);
    hide Count, Core;
    var c, r := s.current, s.(q := q);
    forall n ensures Alive(r, n) <==> Alive(s, n) {}
    forall n | Alive(r, n) ensures Settled(r, n) { assert n != c ==> Settled(s, n); }
  }

  lemma JoinCurrent(s: Sched)
    requires OthersListed(s) && s.q.info[s.current].status == JOINING
    ensures AllListed(Requeue(s))
  {
    hide Count;
    var c, r, jl := s.current, Requeue(s), s.q.lists[JOIN];
    Absent(s.q.lists, c);
    forall x ensures Count(r.q.lists, x) == Count(s.q.lists, x) + (if x == c then 1 else 0) {
      CountUpdate(s.q.lists, JOIN, [c] + jl, x);
    }
    assert forall l :: 0 <= l < JOIN ==> r.q.lists[l] == s.q.lists[l];
    assert forall n :: n in r.q.lists[JOIN] <==> n == c || n in jl;
    assert Core(r);
    forall n ensures Alive(r, n) <==> Alive(s, n) {}
    forall n | Alive(r, n) ensures Settled(r, n) { assert n != c ==> Settled(s, n); }
  }

  lemma ExitCore(s: Sched)
    requires OthersListed(s) && s.q.info[s.current].status == EXITING
    ensures Core(Requeue(s)) && Requeue(s).q.info == s.q.info
    ensures forall n :: n in Requeue(s).q.lists[JOIN] <==> n in s.q.lists[JOIN] && s.q.info[n].joinee != s.current
    ensures forall n :: Count(Requeue(s).q.lists, n) == Count(s.q.lists, n)
  {
    hide Count, Wake, Settled;
    var c, r := s.current, Requeue(s);
    ListedCalm(s);
    WakeIs(s.q, c);
    forall n ensures n in r.q.lists[JOIN] <==> n in s.q.lists[JOIN] && s.q.info[n].joinee != c {
      OthersHas(s.q.lists[JOIN], s.q.info, c, n);
    }
  }

  lemma ExitCurrent(s: Sched)
    requires OthersListed(s) && s.q.info[s.current].status == EXITING
    ensures AllListed(Requeue(s))
  {
    ExitCore(s);
    var r := Requeue(s);
    hide Count, Wake;
    forall n | Alive(r, n) ensures Settled(r, n) { assert Settled(s, n); }
  }

  lemma NeutralEnq(q: Queues, i: nat, n: nat)
    requires |q.lists| == LISTS && i < LEVELS && n in q.info && q.info[n].status == NEUTRAL
    ensures var e := Enq(q, i, n); n in e.info && e.info == e.info[n := e.info[n].(status := NEUTRAL)]
  {
  }

  lemma RequeueKeeps(s: Sched)
    requires OthersListed(s)
    ensures AllListed(Requeue(s)) && Requeue(s).halted == s.halted
  {
    hide AllListed, Enq, Wake, Count;
    match s.q.info[s.current].status
    case YIELDING => QueueCurrent(s, s.q.info[s.current].priority, Requeue(s).q);
    case EXITING => ExitCurrent(s);
    case JOINING => JoinCurrent(s);
    case NEUTRAL =>
      NeutralEnq(s.q, Demoted(s.q.info[s.current].priority), s.current);
      QueueCurrent(s, Demoted(s.q.info[s.current].priority), Requeue(s).q);
  }

  lemma PickKeeps(s: Sched)
    requires AllListed(s) && !s.halted
    ensures Pick(s).halted || Inv(Pick(s))
    ensures var l := Ready(s.q.lists, 0);
      if l == LEVELS then Pick(s).halted && forall k :: 0 <= k < LEVELS ==> s.q.lists[k] == []
      else Pick(s).current == s.q.lists[l][0] && Pick(s).quantum == QUANTUM * (l + 1)
  {
    hide Count, Ready;
    var l, r := Ready(s.q.lists, 0), Pick(s);
    if l < LEVELS {
      var n := s.q.lists[l][0];
      DeqKeeps(s.q, l);
      assert forall k :: LEVELS <= k < LISTS ==> r.q.lists[k] == s.q.lists[k];
      assert Count(s.q.lists, n) > 0 by { if Count(s.q.lists, n) == 0 { Absent(s.q.lists, n); assert false; } }
      assert Core(r);
      forall n | Alive(r, n) ensures Settled(r, n) { assert Settled(s, n); }
    }
  }

  lemma ScheduleKeeps(s: Sched, now: int)
    requires OthersListed(s) && !s.halted
    ensures Schedule(s, now).halted || Inv(Schedule(s, now))
  {
    hide OthersListed, AllListed, Requeue, Pick, Tick, Inv;
    TickKeeps(s, now);
    assert OthersListed(Tick(s, now));
    RequeueKeeps(Tick(s, now));
    PickKeeps(Requeue(Tick(s, now)));
  }

  lemma CreateKeeps(s: Sched, now: int)
    requires Inv(s)
    ensures Inv(Step(s, Create, now))
  {
    hide Count;
    var n, r := s.threadNum, Step(s, Create, now);
    var q := s.q.(info := s.q.info[n := Info(0, now, 0.0, NEUTRAL, 0)]);
    assert Count(s.q.lists, n) == 0;
    Absent(s.q.lists, n);
    assert Leveled(q);
    EnqKeeps(q, 0, n);
    assert forall l :: LEVELS <= l < LISTS ==> r.q.lists[l] == s.q.lists[l];
    assert Core(r);
    forall x | Alive(r, x) ensures Settled(r, x) { assert x != n ==> Alive(s, x) && Settled(s, x); }
  }

  /** Every step from a state that satisfies the invariant leads to another such state, or halts
      because no thread is left to run. */
  lemma StepKeeps(s: Sched, e: Event, now: int)
    requires Inv(s)
    ensures Step(s, e, now).halted || Inv(Step(s, e, now))
    ensures |Step(s, e, now).q.lists| == LISTS
  {
    hide Count, Schedule;
    match e
    case Create => CreateKeeps(s, now);
    case Yield => CallKeeps(s, SetStatus(s, YIELDING)); ScheduleKeeps(SetStatus(s, YIELDING), now);
    case Timer => ScheduleKeeps(s, now);
    case Exit(arg) =>
      var u := if s.current in s.threads
               then s.(threads := s.threads[s.current := s.threads[s.current].(exitArg := arg)]) else s;
      CallKeeps(s, SetStatus(u, EXITING));
      ScheduleKeeps(SetStatus(u, EXITING), now);
    case Return => CallKeeps(s, SetStatus(s, EXITING)); ScheduleKeeps(SetStatus(s, EXITING), now);
    case Join(t) =>
      if t in s.threads && !s.threads[t].isDead {
        CallKeeps(s, SetStatus(Joining(s, t), JOINING));
        ScheduleKeeps(SetStatus(Joining(s, t), JOINING), now);
      }
  }

  lemma CallCore(s: Sched, r: Sched)
    requires Inv(s)
    requires r == s.(q := r.q, threads := r.threads) && r.q.lists == s.q.lists && r.q.info.Keys == s.q.info.Keys
    requires forall n :: n in s.q.info && n != s.current ==> r.q.info[n] == s.q.info[n]
    requires r.q.info[s.current].priority == s.q.info[s.current].priority
    requires r.q.info[s.current].status == JOINING ==> r.q.info[s.current].joinee in s.threads
    requires r.threads.Keys == s.threads.Keys && forall t :: t in s.threads ==>
      r.threads[t].isDead == s.threads[t].isDead
    ensures Core(r)
  {
    hide Count, Settled;
    Absent(s.q.lists, s.current);
  }

  /** A call that only marks the running thread leaves the others listed. */
  lemma CallKeeps(s: Sched, r: Sched)
    requires Inv(s)
    requires r == s.(q := r.q, threads := r.threads) && r.q.lists == s.q.lists && r.q.info.Keys == s.q.info.Keys
    requires forall n :: n in s.q.info && n != s.current ==> r.q.info[n] == s.q.info[n]
    requires r.q.info[s.current].priority == s.q.info[s.current].priority
    requires r.q.info[s.current].status == JOINING ==> r.q.info[s.current].joinee in s.threads
    requires r.threads.Keys == s.threads.Keys && forall t :: t in s.threads ==>
      r.threads[t].isDead == s.threads[t].isDead
    ensures OthersListed(r)
  {
    CallCore(s, r);
    hide Count, Core;
    forall n | Alive(r, n) && n != r.current ensures Settled(r, n) { assert Settled(s, n); }
  }

  // ---- Whole runs -----------------------------------------------------------------------------

  /** The state when `initialize` returns: the main thread runs, everything else is empty. */
  ghost function Initial(now: int): Sched
  {
    Sched(Queues(seq(LISTS, _ => []), map[1 := Info(0, now, 0.0, NEUTRAL, 0)]), 1, map[], 2, 0, QUANTUM, {}, false)
  }

  lemma InitialInv(now: int)
    ensures Inv(Initial(now))
  {
    hide Count;
    forall n ensures Count(Initial(now).q.lists, n) == 0 { NoneListed(Initial(now).q.lists, n); }
  }

  ghost function Run(s: Sched, es: seq<(Event, int)>): (r: Sched)
    requires Inv(s)
    ensures |r.q.lists| == LISTS && (r.halted || Inv(r))
    decreases |es|
  {
    if es == [] then s
    else
      StepKeeps(s, es[0].0, es[0].1);
      var r := Step(s, es[0].0, es[0].1);
      if r.halted then r else Run(r, es[1..])
  }

  /** Thread `n` is in exactly one place if it has not exited: running, on one run queue, or on the
      join list, and there only once. If it has exited, it is nowhere. */
  ghost predicate OnePlace(s: Sched, n: nat)
    requires |s.q.lists| == LISTS
  {
    if !Alive(s, n) then n != s.current && Unlisted(s, n)
    else if n == s.current then Unlisted(s, n)
    else exists l :: OnlyOn(s, n, l)
  }

  ghost predicate Unlisted(s: Sched, n: nat)
    requires |s.q.lists| == LISTS
  {
    forall l :: 0 <= l < LISTS ==> n !in s.q.lists[l]
  }

  ghost predicate OnlyOn(s: Sched, n: nat, l: nat)
    requires |s.q.lists| == LISTS
  {
    && (l < LEVELS || l == JOIN) && multiset(s.q.lists[l])[n] == 1
    && forall m :: 0 <= m < LISTS && m != l ==> n !in s.q.lists[m]
  }

  lemma InOnePlace(s: Sched, n: nat)
    requires Inv(s)
    ensures OnePlace(s, n)
  {
    hide Count;
    var lists := s.q.lists;
    if Count(lists, n) == 0 {
      Absent(lists, n);
    } else {
      var l := Somewhere(lists, n);
      Counted(lists, l, n);
      var k :| 0 <= k < |lists[l]| && lists[l][k] == n;
      forall m | 0 <= m < LISTS && m != l ensures n !in lists[m] { SimpleApart(lists, l, m); }
      assert OnlyOn(s, n, l);
    }
  }

  /** After every run, as long as there is something to run, every thread is in its one place. */
  lemma ExactlyOnePlace(now: int, es: seq<(Event, int)>, n: nat)
    ensures Inv(Initial(now)) && (!Run(Initial(now), es).halted ==> OnePlace(Run(Initial(now), es), n))
  {
    hide Inv, OnePlace;
    InitialInv(now);
    var s := Run(Initial(now), es);
    if !s.halted { InOnePlace(s, n); }
  }

  lemma {:induction false} Somewhere(lists: seq<seq<nat>>, n: nat) returns (l: nat)
    requires Count(lists, n) > 0
    ensures l < |lists| && n in lists[l]
  {
    if n in lists[0] { l := 0; } else {
      l := Somewhere(lists[1..], n);
      l := l + 1;
    }
  }

  /** After every run, as long as there is something to run: the running thread's quantum is that of
      the level it was taken from, below a second, and queued threads store the level they are on. */
  lemma QuantumInRange(now: int, es: seq<(Event, int)>)
    ensures Inv(Initial(now))
    ensures var s := Run(Initial(now), es);
      !s.halted ==>
        && s.current in s.q.info && s.quantum == 100000 * (s.q.info[s.current].priority + 1)
        && 100000 <= s.quantum <= 500000 < 1000000
        && forall l, k :: 0 <= l < LEVELS && 0 <= k < |s.q.lists[l]| ==>
             s.q.lists[l][k] in s.q.info && s.q.info[s.q.lists[l][k]].priority == l
  {
    hide Run;
    InitialInv(now);
  }

  // ---- Joins ----------------------------------------------------------------------------------

  /** Once a thread is dead, neither its mark nor its exit value ever changes. */
  lemma DeadIsFinal(s: Sched, e: Event, now: int, t: nat)
    requires Inv(s) && t in s.threads && s.threads[t].isDead
    ensures t in Step(s, e, now).threads && Step(s, e, now).threads[t] == s.threads[t]
  {
    hide Count, Schedule, Core, Settled;
    CurrentNotDead(s);
    match e
    case Create => NextIsNew(s);
    case Yield => ScheduleThreads(SetStatus(s, YIELDING), now);
    case Timer => ScheduleThreads(s, now);
    case Exit(arg) =>
      var u := if s.current in s.threads
               then s.(threads := s.threads[s.current := s.threads[s.current].(exitArg := arg)]) else s;
      ScheduleThreads(SetStatus(u, EXITING), now);
    case Return => ScheduleThreads(SetStatus(s, EXITING), now);
    case Join(t) =>
      if t in s.threads && !s.threads[t].isDead { ScheduleThreads(SetStatus(Joining(s, t), JOINING), now); }
  }

  lemma CurrentNotDead(s: Sched)
    requires Inv(s)
    ensures s.current in s.threads ==> !s.threads[s.current].isDead
  {
  }

  lemma NextIsNew(s: Sched)
    requires Inv(s)
    ensures s.threadNum !in s.threads
  {
  }

  lemma ScheduleThreads(s: Sched, now: int)
    requires WF(s)
    ensures Schedule(s, now).threads == s.threads || Schedule(s, now).threads == MarkDead(s.threads, s.current)
  {
    hide Count, Wake, Maintain, Enq, Deq, Shape;
  }

  lemma {:induction false} DeadStaysFinal(s: Sched, es: seq<(Event, int)>, t: nat)
    requires Inv(s) && t in s.threads && s.threads[t].isDead
    ensures t in Run(s, es).threads && Run(s, es).threads[t] == s.threads[t]
    decreases |es|
  {
    hide Inv, Step;
    if es == [] {
    } else {
      var r := Step(s, es[0].0, es[0].1);
      StepKeeps(s, es[0].0, es[0].1);
      DeadIsFinal(s, es[0].0, es[0].1, t);
      if !r.halted { DeadStaysFinal(r, es[1..], t); }
    }
  }

  /** What a call of `schedule` does to the join list. */
  ghost function JoinListAfter(s: Sched): seq<nat>
    requires WF(s)
  {
    var c, jl := s.current, s.q.lists[JOIN];
    match s.q.info[c].status
    case YIELDING => jl
    case NEUTRAL => jl
    case JOINING => [c] + jl
    case EXITING => Others(jl, s.q.info, c)
  }

  ghost predicate SameJoinees(q: Queues, r: Queues)
  {
    r.info.Keys == q.info.Keys && forall n :: n in q.info ==> r.info[n].joinee == q.info[n].joinee
  }

  lemma RequeueJoins(s: Sched)
    requires OthersListed(s)
    ensures var r := Requeue(s);
      && r.q.lists[JOIN] == JoinListAfter(s) && SameJoinees(s.q, r.q)
      && r.threads == if s.q.info[s.current].status == EXITING then MarkDead(s.threads, s.current) else s.threads
  {
    hide Count, Wake, Others, Core, Settled;
    ListedCalm(s);
    WakeIs(s.q, s.current);
  }

  lemma ScheduleJoins(s: Sched, now: int)
    requires OthersListed(s)
    ensures var r := Schedule(s, now);
      && |r.q.lists| == LISTS && r.q.lists[JOIN] == JoinListAfter(s) && SameJoinees(s.q, r.q)
      && r.threads == if s.q.info[s.current].status == EXITING then MarkDead(s.threads, s.current) else s.threads
  {
    hide Count, Requeue, Tick, Others, OthersListed, AllListed;
    var u := Tick(s, now);
    TickKeeps(s, now);
    RequeueJoins(u);
    OthersSame(u.q.lists[JOIN], s.q.info, u.q.info, s.current);
  }

  lemma {:induction false} OthersSame(jl: seq<nat>, info: map<nat, Info>, info': map<nat, Info>, t: nat)
    requires Known(jl, info) && Known(jl, info')
    requires forall n :: n in info && n in info' ==> info'[n].joinee == info[n].joinee
    ensures Others(jl, info', t) == Others(jl, info, t)
  {
    if jl == [] {
    } else {
      OthersSame(jl[1..], info, info', t);
    }
  }

  /** An exit takes exactly the waiters for the exiting thread off the join list, whatever
      maintenance happens in the same step, and keeps the others in order. */
  lemma ExitReleases(s: Sched, e: Event, now: int)
    requires Inv(s) && (e.Exit? || e.Return?)
    ensures var r := Step(s, e, now);
      r.q.lists[JOIN] == Others(s.q.lists[JOIN], s.q.info, s.current) && SameJoinees(s.q, r.q)
  {
    hide Schedule, Inv, OthersListed, Others;
    var u := if e.Exit? && s.current in s.threads
             then s.(threads := s.threads[s.current := s.threads[s.current].(exitArg := e.arg)]) else s;
    var v := SetStatus(u, EXITING);
    CallKeeps(s, v);
    ScheduleJoins(v, now);
    OthersSame(s.q.lists[JOIN], s.q.info, v.q.info, s.current);
  }

  /** A call that marks the running thread and schedules: who stays on the join list. */
  lemma CallWaits(s: Sched, v: Sched, now: int, n: nat)
    requires Inv(s) && n in s.q.lists[JOIN] && OthersListed(v)
    requires v.current == s.current && v.q.lists == s.q.lists && v.threads.Keys == s.threads.Keys
    requires n in v.q.info && n in s.q.info && (n != s.current ==> v.q.info[n] == s.q.info[n])
    ensures var r, t := Schedule(v, now), s.q.info[n].joinee;
      && |r.q.lists| == LISTS && n in r.q.info && r.q.info[n].joinee == t
      && (n !in r.q.lists[JOIN] <==> v.q.info[s.current].status == EXITING && t == s.current)
      && (n !in r.q.lists[JOIN] ==> Dead(r, t))
  {
    hide Count, Schedule, Settled;
    Absent(s.q.lists, s.current);
    ScheduleJoins(v, now);
    OthersHas(v.q.lists[JOIN], v.q.info, s.current, n);
  }

  /** A waiter leaves the join list exactly when the thread it waits for exits, and that thread is
      then dead; until then it waits for the same thread. */
  lemma WaiterStep(s: Sched, e: Event, now: int, n: nat)
    requires Inv(s) && n in s.q.lists[JOIN]
    ensures var r, t := Step(s, e, now), s.q.info[n].joinee;
      && |r.q.lists| == LISTS && n in r.q.info && r.q.info[n].joinee == t
      && (n !in r.q.lists[JOIN] <==> (e.Exit? || e.Return?) && t == s.current)
      && (n !in r.q.lists[JOIN] ==> Dead(r, t))
  {
    hide Count, Schedule;
    Absent(s.q.lists, s.current);
    match e
    case Create =>
    case Yield =>
      CallKeeps(s, SetStatus(s, YIELDING));
      CallWaits(s, SetStatus(s, YIELDING), now, n);
    case Timer =>
      CallWaits(s, s, now, n);
    case Exit(arg) =>
      var u := if s.current in s.threads
               then s.(threads := s.threads[s.current := s.threads[s.current].(exitArg := arg)]) else s;
      CallKeeps(s, SetStatus(u, EXITING));
      CallWaits(s, SetStatus(u, EXITING), now, n);
    case Return =>
      CallKeeps(s, SetStatus(s, EXITING));
      CallWaits(s, SetStatus(s, EXITING), now, n);
    case Join(t) =>
      if t in s.threads && !s.threads[t].isDead {
        CallKeeps(s, SetStatus(Joining(s, t), JOINING));
        CallWaits(s, SetStatus(Joining(s, t), JOINING), now, n);
      }
  }

  /** Over every run: a waiter that has left the join list since `s` was released by the death of
      the thread it was waiting for, whose exit value is final by then. */
  lemma {:induction false} ReleasedByDeath(s: Sched, es: seq<(Event, int)>, n: nat)
    requires Inv(s) && n in s.q.lists[JOIN]
    ensures var r := Run(s, es);
      n in s.q.info && (n !in r.q.lists[JOIN] ==> Dead(r, s.q.info[n].joinee))
    decreases |es|
  {
    hide Inv, Step;
    if es == [] {
    } else {
      var r := Step(s, es[0].0, es[0].1);
      StepKeeps(s, es[0].0, es[0].1);
      WaiterStep(s, es[0].0, es[0].1, n);
      if !r.halted {
        if n in r.q.lists[JOIN] {
          ReleasedByDeath(r, es[1..], n);
        } else {
          DeadStaysFinal(r, es[1..], s.q.info[n].joinee);
        }
      }
    }
  }

  /** When a thread that waited runs again, the thread it waited for is dead; the exit value it then
      takes is the one that stays. */
  lemma JoinHandsOver(s: Sched, es: seq<(Event, int)>, later: seq<(Event, int)>, n: nat)
    requires Inv(s) && n in s.q.lists[JOIN] && !Run(s, es).halted && Run(s, es).current == n
    ensures n in s.q.info
    ensures var r, t := Run(s, es), s.q.info[n].joinee;
      Dead(r, t) && t in Run(r, later).threads && Run(r, later).threads[t] == r.threads[t]
  {
    hide Inv, Step, Run;
    ReleasedByDeath(s, es, n);
    InOnePlace(Run(s, es), n);
    DeadStaysFinal(Run(s, es), later, s.q.info[n].joinee);
  }

  /** A thread that exits is dead, with the value it exits with. */
  lemma ExitRecords(s: Sched, arg: int, now: int)
    requires Inv(s) && s.current in s.threads
    ensures var r := Step(s, Exit(arg), now);
      s.current in r.threads && r.threads[s.current] == Thread(true, arg)
  {
    hide Schedule, Inv, OthersListed;
    var v := SetStatus(s.(threads := s.threads[s.current := s.threads[s.current].(exitArg := arg)]), EXITING);
    CallKeeps(s, v);
    ScheduleJoins(v, now);
  }

  ghost predicate Dead(s: Sched, t: nat)
  {
    t in s.threads && s.threads[t].isDead
  }

  /** Thread `n` is on the join list although its joinee is dead. */
  ghost predicate Stranded(s: Sched, n: nat)
  {
    |s.q.lists| == LISTS && n in s.q.lists[JOIN] && n in s.q.info && Dead(s, s.q.info[n].joinee)
  }

  lemma ScheduleStrands(s: Sched, now: int, n: nat)
    requires OthersListed(s) && !Dead(s, s.current)
    ensures Stranded(Schedule(s, now), n) <==>
      Stranded(s, n) || (n == s.current && s.q.info[n].status == JOINING && Dead(s, s.q.info[n].joinee))
  {
    hide Count, Schedule, Core, Settled;
    Absent(s.q.lists, s.current);
    ScheduleJoins(s, now);
    OthersHas(s.q.lists[JOIN], s.q.info, s.current, n);
  }

  /** Exactly one thing strands a thread: a timer expiry while the running thread has returned from
      a join and not yielded since, because its status is still JOINING. */
  lemma StrandedIff(s: Sched, e: Event, now: int, n: nat)
    requires Inv(s)
    ensures Stranded(Step(s, e, now), n) <==>
      Stranded(s, n) || (e == Timer && n == s.current && s.q.info[n].status == JOINING)
  {
    hide Count, Schedule;
    Absent(s.q.lists, s.current);
    match e
    case Create => assert n in s.q.lists[JOIN] ==> n in s.q.info && n != s.threadNum;
    case Yield => CallStrands(s, SetStatus(s, YIELDING), now, n);
    case Timer => ScheduleStrands(s, now, n);
    case Exit(arg) =>
      var u := if s.current in s.threads
               then s.(threads := s.threads[s.current := s.threads[s.current].(exitArg := arg)]) else s;
      CallStrands(s, SetStatus(u, EXITING), now, n);
    case Return => CallStrands(s, SetStatus(s, EXITING), now, n);
    case Join(t) =>
      if t in s.threads && !s.threads[t].isDead { CallStrands(s, SetStatus(Joining(s, t), JOINING), now, n); }
  }

  lemma CallStrands(s: Sched, r: Sched, now: int, n: nat)
    requires Inv(s)
    requires r == s.(q := r.q, threads := r.threads) && r.q.lists == s.q.lists && r.q.info.Keys == s.q.info.Keys
    requires forall x :: x in s.q.info && x != s.current ==> r.q.info[x] == s.q.info[x]
    requires r.q.info[s.current].priority == s.q.info[s.current].priority
    requires r.q.info[s.current].status == JOINING ==>
      r.q.info[s.current].joinee in s.threads && !Dead(s, r.q.info[s.current].joinee)
    requires r.threads.Keys == s.threads.Keys && forall t :: t in s.threads ==>
      r.threads[t].isDead == s.threads[t].isDead
    ensures Stranded(Schedule(r, now), n) <==> Stranded(s, n)
  {
    hide Count, Schedule, Core, Settled;
    Absent(s.q.lists, s.current);
    CurrentNotDead(s);
    CallKeeps(s, r);
    ScheduleStrands(r, now, n);
  }

  ghost function Lists(q0: seq<nat>, jl: seq<nat>): (r: seq<seq<nat>>)
    ensures |r| == LISTS
  {
    [q0, [], [], [], [], [], [], [], [], jl]
  }

  lemma ListsSet(q0: seq<nat>, jl: seq<nat>, x: seq<nat>)
    ensures Lists(q0, jl)[0 := x] == Lists(x, jl) && Lists(q0, jl)[JOIN := x] == Lists(q0, x)
  {
  }

  lemma Singletons(n: nat)
    ensures [n] + [] == [n] && [] + [n] == [n] && [n][1..] == [] && Without([n], 0) == []
  {
  }

  lemma ReadyOf(q0: seq<nat>, jl: seq<nat>)
    ensures Ready(Lists(q0, jl), 0) == if q0 == [] then LEVELS else 0
  {
  }

  /** A run in which that happens: main joins thread 2, thread 2 exits, main's quantum runs out. */
  lemma JoinerCanBeStranded()
    ensures Inv(Initial(0))
    ensures var r := Run(Initial(0), [(Create, 0), (Join(2), 0), (Exit(7), 0), (Timer, 0)]);
      r.halted && Stranded(r, 1) && r.q.lists[JOIN] == [1]
  {
    hide Maintain, Ready, Inv, Count;
    var s0, new1, new2 := Initial(0), Info(0, 0, 0.0, NEUTRAL, 0), Info(0, 0, 0.0, JOINING, 2);
    InitialInv(0);
    assert s0.q.lists == Lists([], []);
    Singletons(2);
    ListsSet([], [], [2]);
    var s1 := Sched(Queues(Lists([2], []), map[1 := new1, 2 := new1]), 1, map[2 := Thread(false, 0)], 3, 0, QUANTUM,
      {}, false);
    assert Step(s0, Create, 0) == s1;
    StepKeeps(s0, Create, 0);
    var s2 := Sched(Queues(Lists([], [1]), map[1 := new2, 2 := new1]), 2, map[2 := Thread(false, 0)], 3, 1, QUANTUM,
      {}, false);
    JoinStep(s1, s2);
    StepKeeps(s1, Join(2), 0);
    var s3 := Sched(Queues(Lists([], []), map[1 := new2, 2 := new1.(status := EXITING)]), 1,
      map[2 := Thread(true, 7)], 3, 2, QUANTUM, {2}, false);
    ExitStep(s2, s3);
    StepKeeps(s2, Exit(7), 0);
    var s4 := s3.(q := Queues(Lists([], [1]), s3.q.info), cycles := 3, halted := true);
    TimerStep(s3, s4);
    RunCons(s3, Timer, 0, []);
    RunCons(s2, Exit(7), 0, [(Timer, 0)]);
    RunCons(s1, Join(2), 0, [(Exit(7), 0), (Timer, 0)]);
    RunCons(s0, Create, 0, [(Join(2), 0), (Exit(7), 0), (Timer, 0)]);
  }

  lemma RunCons(s: Sched, e: Event, now: int, es: seq<(Event, int)>)
    requires Inv(s)
    ensures var r := Step(s, e, now);
      (r.halted || Inv(r)) && Run(s, [(e, now)] + es) == if r.halted then r else Run(r, es)
  {
    hide Step, Inv;
    StepKeeps(s, e, now);
    assert ([(e, now)] + es)[1..] == es;
  }

  lemma JoinStep(s1: Sched, s2: Sched)
    requires var n := Info(0, 0, 0.0, NEUTRAL, 0);
      && s1 == Sched(Queues(Lists([2], []), map[1 := n, 2 := n]), 1, map[2 := Thread(false, 0)], 3, 0, QUANTUM, {},
        false)
      && s2 == Sched(Queues(Lists([], [1]), map[1 := Info(0, 0, 0.0, JOINING, 2), 2 := n]), 2,
                     map[2 := Thread(false, 0)], 3, 1, QUANTUM, {}, false)
    ensures WF(s1) && Step(s1, Join(2), 0) == s2
  {
    hide Pick, Requeue, Tick, Schedule;
    var v := s1.(q := Queues(s1.q.lists, s2.q.info));
    assert SetStatus(Joining(s1, 2), JOINING).q.info == s2.q.info;
    assert Step(s1, Join(2), 0) == Schedule(v, 0);
    JoinSchedules(v, s2);
  }

  lemma JoinSchedules(v: Sched, s2: Sched)
    requires var info := map[1 := Info(0, 0, 0.0, JOINING, 2), 2 := Info(0, 0, 0.0, NEUTRAL, 0)];
      && v == Sched(Queues(Lists([2], []), info), 1, map[2 := Thread(false, 0)], 3, 0, QUANTUM, {}, false)
      && s2 == Sched(Queues(Lists([], [1]), info), 2, map[2 := Thread(false, 0)], 3, 1, QUANTUM, {}, false)
    ensures WF(v) && Schedule(v, 0) == s2
  {
    hide Maintain, Ready;
    ReadyOf([2], [1]);
    Singletons(1);
    Singletons(2);
    ListsSet([2], [], [1]);
    ListsSet([2], [1], []);
    var u := v.(q := Queues(Lists([2], [1]), v.q.info), cycles := 1);
    assert Requeue(Tick(v, 0)) == u;
    assert Pick(u) == s2;
  }

  lemma ExitStep(s2: Sched, s3: Sched)
    requires var n, w := Info(0, 0, 0.0, NEUTRAL, 0), Info(0, 0, 0.0, JOINING, 2);
      && s2 == Sched(Queues(Lists([], [1]), map[1 := w, 2 := n]), 2, map[2 := Thread(false, 0)], 3, 1, QUANTUM, {},
        false)
      && s3 == Sched(Queues(Lists([], []), map[1 := w, 2 := n.(status := EXITING)]), 1,
                     map[2 := Thread(true, 7)], 3, 2, QUANTUM, {2}, false)
    ensures WF(s2) && Step(s2, Exit(7), 0) == s3
  {
    hide Maintain, Ready, Wake;
    var info := s3.q.info;
    WakeMain(info);
    var v := Sched(Queues(Lists([], [1]), info), 2, map[2 := Thread(false, 7)], 3, 1, QUANTUM, {}, false);
    assert s2.threads[2 := Thread(false, 7)] == v.threads;
    assert s2.q.info[2 := s2.q.info[2].(status := EXITING)] == info;
    assert Step(s2, Exit(7), 0) == Schedule(v, 0);
    var u := Sched(Queues(Lists([1], []), info), 2, map[2 := Thread(true, 7)], 3, 2, QUANTUM, {2}, false);
    assert Requeue(Tick(v, 0)) == u;
    Singletons(1);
    ListsSet([1], [], []);
    ReadyOf([1], []);
    assert Pick(u) == s3;
  }

  lemma WakeMain(info: map<nat, Info>)
    requires info == map[1 := Info(0, 0, 0.0, JOINING, 2), 2 := Info(0, 0, 0.0, EXITING, 0)]
    ensures Shape(Queues(Lists([], [1]), info))
    ensures Wake(Queues(Lists([], [1]), info), 2) == Queues(Lists([1], []), info)
  {
    var q := Queues(Lists([], [1]), info);
    Singletons(1);
    ListsSet([], [1], []);
    ListsSet([], [], [1]);
    assert WakeOne(q, 0) == Queues(Lists([1], []), info);
    assert Wake(Queues(Lists([1], []), info), 2) == Queues(Lists([1], []), info);
  }

  lemma TimerStep(s3: Sched, s4: Sched)
    requires s3 == Sched(Queues(Lists([], []),
      map[1 := Info(0, 0, 0.0, JOINING, 2), 2 := Info(0, 0, 0.0, EXITING, 0)]), 1,
                         map[2 := Thread(true, 7)], 3, 2, QUANTUM, {2}, false)
    requires s4 == s3.(q := Queues(Lists([], [1]), s3.q.info), cycles := 3, halted := true)
    ensures WF(s3) && Step(s3, Timer, 0) == s4
  {
    hide Maintain, Ready;
    ReadyOf([], [1]);
    Singletons(1);
    ListsSet([], [], [1]);
  }
}
