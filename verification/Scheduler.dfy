/** The scheduler of my_pthread/my_pthread.c on its linked nodes. Every method is tied to the
    corresponding step of the machine in Dispatch or queue operation in RunQueues. */
module Scheduler {
  import opened RunQueues
  import opened NodeLinks
  import opened Dispatch

  class Scheduler {
    /** Node fields by thread id: the link, and everything else. */
    var next: map<nat, nat>
    var info: map<nat, Info>
    /** Run queues at 0 to 4, promotion queues at 5 to 8. */
    var queues: seq<Queue>
    var joinList: nat
    var current: nat
    var threads: map<nat, Thread>
    var threadNum: nat
    var cycles: nat
    var quantum: nat
    ghost var lists: seq<seq<nat>>
    ghost var exited: set<nat>
    ghost var halted: bool

    ghost function Q(): Queues
      reads this
    {
      Queues(lists, info)
    }

    ghost function State(): Sched
      reads this
    {
      Sched(Q(), current, threads, threadNum, cycles, quantum, exited, halted)
    }

    /** The links hold exactly the listed nodes. */
    ghost predicate Linked()
      reads this
    {
      Rep(next, queues, joinList, lists) && Shape(Q()) && next.Keys == info.Keys && 0 !in info
    }

    ghost predicate Valid()
      reads this
    {
      Linked() && Inv(State())
    }

    /** `initialize`: empty queues, and the main thread running with id 1. */
    constructor (now: int)
      ensures Valid() && State() == Initial(now)
    {
      next, info := map[1 := 0], map[1 := Info(0, now, 0.0, NEUTRAL, 0)];
      queues, joinList := seq(QUEUES, _ => Queue(0, 0)), 0;
      current, threads, threadNum, cycles, quantum := 1, map[], 2, 0, QUANTUM;
      lists, exited, halted := seq(LISTS, _ => []), {}, false;
      new;
      hide Count;
      InitialInv(now);
      assert State() == Initial(now);
    }

    method EnQ(i: nat, n: nat)
      requires Linked() && i < LEVELS && n in info && Count(lists, n) == 0
      modifies this`next, this`info, this`queues, this`lists
      ensures Linked() && Q() == Enq(old(Q()), i, n)
    {
      hide Count, Chain, Simple;
      ghost var ls := lists;
      EnqLinks(next, queues, joinList, ls, i, n);
      var q := queues[i];
      if q.head == 0 {
        next := next[n := 0];
        queues := queues[i := Queue(n, n)];
        info := info[n := info[n].(priority := i)];
      } else {
        next := next[q.rear := n];
        next := next[n := 0];
        queues := queues[i := Queue(q.head, n)];
        if info[n].status != YIELDING {
          info := info[n := info[n].(priority := i)];
        }
      }
      lists := ls[i := ls[i] + [n]];
    }

    method DeQ(i: nat) returns (n: nat)
      requires Linked() && i < QUEUES
      modifies this`next, this`queues, this`lists
      ensures Linked()
      ensures old(lists)[i] == [] ==> n == 0 && Q() == old(Q())
      ensures old(lists)[i] != [] ==>
        n == old(lists)[i][0] && n in info && Q() == Deq(old(Q()), i) && Count(lists, n) == 0
    {
      hide Count, Simple;
      ghost var ls := lists;
      var q := queues[i];
      n := q.head;
      if n == 0 {
        return;
      }
      DeqKeeps(Q(), i);
      DeqLinks(next, queues, joinList, ls, i);
      queues := queues[i := Queue(next[n], if next[n] == 0 then 0 else q.rear)];
      next := next[n := 0];
      lists := ls[i := ls[i][1..]];
    }

    method InsertByTime(i: nat, n: nat)
      requires Linked() && LEVELS <= i < QUEUES && n in info && Count(lists, n) == 0
      modifies this`next, this`queues, this`lists
      ensures Linked() && Q() == Insert(old(Q()), i, n)
    {
      hide Count, Simple, InsertAt, Rep, TimePos;
      ghost var ls, s := lists, lists[i];
      InsertKeeps(Q(), i, n);
      EnqLinks(next, queues, joinList, ls, i, n);
      InsertEnd(s, n);
      var q := queues[i];
      if q.head == 0 {
        TimePosIs(s, info[n].runtime, info, 0);
        next := next[n := 0];
        queues := queues[i := Queue(n, n)];
        lists := ls[i := InsertAt(s, 0, n)];
        return;
      }
      var prev, ptr := 0, q.head;
      ghost var p := 0;
      LinkAt(next, queues, joinList, ls, i, 0);
      while ptr != 0 && info[n].runtime <= info[ptr].runtime
        invariant next == old(next) && queues == old(queues) && joinList == old(joinList) && lists == ls
        invariant 0 <= p <= |s|
        invariant ptr == (if p < |s| then s[p] else 0) && prev == (if p > 0 then s[p - 1] else 0)
        invariant forall k :: 0 <= k < p ==> info[s[k]].runtime >= info[n].runtime
        invariant p < |s| ==> s[p] != 0
        decreases |s| - p
      {
        LinkAt(next, queues, joinList, ls, i, p);
        prev := ptr;
        ptr := next[ptr];
        p := p + 1;
        if p < |s| { LinkAt(next, queues, joinList, ls, i, p); }
      }
      TimePosIs(s, info[n].runtime, info, p);
      lists := ls[i := InsertAt(s, p, n)];
      if ptr == 0 {
        next := next[q.rear := n];
        next := next[n := 0];
        queues := queues[i := q.(rear := n)];
      } else {
        InsertLinks(next, queues, joinList, ls, i, p, n);
        if p > 0 { LinkAt(next, queues, joinList, ls, i, p - 1); }
        next := next[n := ptr];
        if prev == 0 {
          queues := queues[i := q.(head := n)];
        } else {
          next := next[prev := n];
          assert queues == queues[i := q];
        }
      }
    }

    /** `insertToList` on the join list. */
    method InsertToList(n: nat)
      requires Linked() && n in info && Count(lists, n) == 0
      modifies this`next, this`joinList, this`lists
      ensures Linked() && Q() == old(Q()).(lists := old(lists)[JOIN := [n] + old(lists)[JOIN]])
    {
      hide Count, Simple;
      PushLinks(next, queues, joinList, lists, n);
      next := next[n := joinList];
      joinList := n;
      lists := lists[JOIN := [n] + lists[JOIN]];
    }

    /** `removeFromList` on the join list: the node of thread `id`, 0 if it is not there. */
    method RemoveFromList(id: nat) returns (r: nat)
      requires Linked()
      modifies this`next, this`joinList, this`lists
      ensures Linked()
      ensures id !in old(lists)[JOIN] ==> r == 0 && Q() == old(Q())
      ensures forall k :: 0 <= k < |old(lists)[JOIN]| && old(lists)[JOIN][k] == id ==>
        r == id && Q() == Unlist(old(Q()), k) && Count(lists, id) == 0
    {
      hide Count, Simple;
      ghost var ls, s := lists, lists[JOIN];
      SimpleApart(ls, JOIN, JOIN);
      var ptr, prev := joinList, 0;
      ghost var k := 0;
      ChainStart(next, joinList, s);
      while ptr != 0 && ptr != id
        invariant 0 <= k <= |s|
        invariant ptr == (if k < |s| then s[k] else 0) && prev == (if k > 0 then s[k - 1] else 0)
        invariant forall j :: 0 <= j < k ==> s[j] != id
        decreases |s| - k
      {
        prev := ptr;
        ptr := next[ptr];
        k := k + 1;
      }
      if ptr != 0 {
        UnlistKeeps(Q(), k);
        RemoveLinks(next, queues, joinList, ls, k);
        if prev == 0 {
          joinList := next[ptr];
          next := next[ptr := 0];
        } else {
          next := next[prev := next[ptr]];
          next := next[ptr := 0];
        }
        lists := ls[JOIN := Without(s, k)];
        return ptr;
      }
      r := 0;
    }

    /** One node from run queue `i + 1` to promotion queue `i`, by runtime; 0 if there is none. */
    method DrainNode(i: nat, now: int) returns (ptr: nat)
      requires Linked() && i < LEVELS - 1
      modifies this`next, this`info, this`queues, this`lists
      ensures Linked() && (ptr == 0 <==> old(lists)[i + 1] == [])
      ensures Q() == if ptr == 0 then old(Q()) else DrainOne(old(Q()), i, now)
    {
      hide Count, Rep, Insert, Shape;
      ghost var before := Q();
      ZeroUnlisted(before, i + 1);
      ptr := DeQ(i + 1);
      if ptr != 0 {
        HeadNotZero(before, i + 1);
        AgedShape(Q(), ptr, now);
        info := info[ptr := info[ptr].(runtime := Age(now, info[ptr].created))];
        InsertByTime(LEVELS + i, ptr);
      }
    }

    /** The first phase of `maintenance` for one level: run queue `i + 1` is emptied into promotion
        queue `i`, by runtime. */
    method DrainLevel(i: nat, now: int) returns (n: nat)
      requires Linked() && i < LEVELS - 1
      modifies this`next, this`info, this`queues, this`lists
      ensures Linked() && Q() == Drain(old(Q()), i, now) && n == |old(lists)[i + 1]|
    {
      hide Count, Rep, DrainOne, Shape;
      n := 0;
      ghost var q := Q();
      while true
        invariant Linked() && Drain(Q(), i, now) == Drain(q, i, now)
        invariant n + |lists[i + 1]| == |q.lists[i + 1]|
        decreases |lists[i + 1]|
      {
        ghost var before := Q();
        var ptr := DrainNode(i, now);
        if ptr == 0 {
          break;
        }
        DrainOneShorter(before, i, now);
        n := n + 1;
      }
    }

    /** `count` nodes from the front of promotion queue `i` go to run queue `level`. */
    method TakeNodes(i: nat, level: nat, count: nat)
      requires Linked() && i < LEVELS - 1 && level < LEVELS
      modifies this`next, this`info, this`queues, this`lists
      ensures Linked() && Q() == Take(old(Q()), i, level, count)
    {
      hide Count, Rep, Enq, Deq, Shape;
      ghost var q := Q();
      for k := 0 to count
        invariant Linked() && Take(Q(), i, level, count - k) == Take(q, i, level, count)
      {
        ghost var before := Q();
        var ptr := DeQ(LEVELS + i);
        if ptr != 0 {
          HeadNotZero(before, LEVELS + i);
          EnQ(level, ptr);
        } else {
          ZeroUnlisted(before, LEVELS + i);
        }
        assert Q() == TakeOne(before, i, level);
      }
    }

    /** The second phase for one level: `n` nodes dealt to levels `i + 1` down to 0. */
    method DealLevel(i: nat, n: nat)
      requires Linked() && i < LEVELS - 1
      modifies this`next, this`info, this`queues, this`lists
      ensures Linked() && Q() == Deal(old(Q()), i, i + 2, n)
    {
      hide Count, Rep, Take, Shape, Quota;
      ghost var q := Q();
      for j := i + 2 downto 0
        invariant Linked() && Deal(Q(), i, j, n) == Deal(q, i, i + 2, n)
      {
        QuotaIs(n, i, j);
        if j > 0 {
          TakeNodes(i, j, n / (i + 2));
        } else {
          TakeNodes(i, j, n - (n / (i + 2)) * (i + 1));
        }
      }
    }

    method Maintenance(now: int)
      requires Linked()
      modifies this`next, this`info, this`queues, this`lists
      ensures Linked() && Q() == Maintain(old(Q()), now)
    {
      hide Count, Rep, Drain, Deal, Shape;
      ghost var q := Q();
      var arr: seq<nat> := [0, 0, 0, 0];
      for i := 0 to LEVELS - 1
        invariant Linked() && DrainAll(Q(), i, now) == DrainAll(q, 0, now)
        invariant |arr| == LEVELS - 1 && forall k :: 0 <= k < i ==> arr[k] == |q.lists[k + 1]|
        invariant forall l :: i < l < LEVELS ==> lists[l] == q.lists[l]
      {
        DrainFrame(Q(), i, now);
        var n := DrainLevel(i, now);
        arr := arr[i := n];
      }
      ghost var d := Q();
      assert arr == Counts(q);
      for i := 0 to LEVELS - 1
        invariant Linked() && DealAll(Q(), i, arr) == DealAll(d, 0, arr)
      {
        DealLevel(i, arr[i]);
      }
    }

    /** The waiter `jptr`, at position `k`, goes back to the run queue of its priority. */
    method WakeNode(jptr: nat, ghost k: nat)
      requires Linked() && k < |lists[JOIN]| && lists[JOIN][k] == jptr && jptr in info
      modifies this`next, this`info, this`queues, this`joinList, this`lists
      ensures Linked() && Q() == WakeOne(old(Q()), k)
    {
      hide Count, Rep, Shape, Without;
      KnownPriority(Q(), jptr);
      var returnToQ := RemoveFromList(jptr);
      EnQ(info[returnToQ].priority, returnToQ);
    }

    /** The exit branch of `schedule`: every waiter for the running thread is put back on its run
        queue; the scan of the join list restarts at the head after each one. */
    method WakeWaiters()
      requires Linked() && Tidy(Q())
      modifies this`next, this`info, this`queues, this`joinList, this`lists
      ensures Linked() && Q() == Wake(old(Q()), current)
    {
      hide Count, Rep, Shape, Tidy, Without, WakeOne;
      ghost var q := Q();
      var jptr := joinList;
      ghost var k := 0;
      JoinStart(next, queues, joinList, lists);
      while jptr != 0
        invariant Linked() && Tidy(Q()) && Wake(Q(), current) == Wake(q, current)
        invariant 0 <= k <= |lists[JOIN]|
        invariant jptr == if k < |lists[JOIN]| then lists[JOIN][k] else 0
        invariant forall i :: 0 <= i < k ==> lists[JOIN][i] in info && info[lists[JOIN][i]].joinee != current
        decreases |lists[JOIN]|, |lists[JOIN]| - k
      {
        JoinAt(next, queues, joinList, lists, k);
        JoinKnown(Q());
        if info[jptr].joinee == current {
          WakeOneKeeps(Q(), k);
          WithoutShorter(lists[JOIN], k);
          FirstWaiterIs(lists[JOIN], info, current, k);
          WakeNode(jptr, k);
          jptr := joinList;
          k := 0;
          JoinStart(next, queues, joinList, lists);
        } else {
          jptr := next[jptr];
          k := k + 1;
        }
      }
      JoinKnown(Q());
      JoinEnd(next, queues, joinList, lists, k);
      FirstWaiterIs(lists[JOIN], info, current, |lists[JOIN]|);
    }

    /** `getNextNode`: the head of the first non-empty run queue, 0 if all are empty. */
    method GetNextNode() returns (n: nat)
      requires Linked()
      modifies this`next, this`queues, this`lists
      ensures Linked()
      ensures var l := Ready(old(lists), 0);
              if l == LEVELS then n == 0 && Q() == old(Q())
              else n == old(lists)[l][0] && n in info && n != 0 && Q() == Deq(old(Q()), l)
    {
      hide Count, Rep, Shape, Ready;
      for i := 0 to LEVELS
        invariant Linked() && Q() == old(Q())
        invariant forall k :: 0 <= k < i ==> lists[k] == []
      {
        QueueHead(next, queues, joinList, lists, i);
        if queues[i].head != 0 {
          ReadyIs(lists, 0, i);
          HeadNotZero(Q(), i);
          n := DeQ(i);
          return;
        }
      }
      ReadyIs(lists, 0, LEVELS);
      n := 0;
    }

    /** The middle of `schedule`: what becomes of the thread that just ran. */
    method RequeueCurrent()
      requires Linked() && current in info && Tidy(Q()) && Count(lists, current) == 0
      modifies this
      ensures Linked() && State() == Requeue(old(State()))
    {
      hide Count, Rep, Shape, Wake, Tidy;
      KnownPriority(Q(), current);
      if info[current].status == YIELDING {
        EnQ(info[current].priority, current);
        StatusShape(Q(), current, NEUTRAL);
        info := info[current := info[current].(status := NEUTRAL)];
      } else if info[current].status == EXITING {
        if current in threads {
          threads := threads[current := threads[current].(isDead := true)];
        }
        WakeWaiters();
        exited := exited + {current};
      } else if info[current].status == JOINING {
        InsertToList(current);
      } else {
        var newPriority := info[current].priority;
        if info[current].priority < LEVELS - 1 {
          newPriority := newPriority + 1;
        }
        EnQ(newPriority, current);
      }
    }

    /** The end of `schedule`: the next thread is taken off the queues and gets its quantum. */
    method PickNext()
      requires Linked()
      modifies this
      ensures Linked() && State() == Pick(old(State()))
    {
      hide Count, Rep, Shape, Ready;
      var nextNode := GetNextNode();
      if nextNode == 0 {
        halted := true;
        return;
      }
      current := nextNode;
      quantum := QUANTUM * (info[current].priority + 1);
    }

    method Schedule(now: int)
      requires Linked() && OthersListed(State()) && !halted
      modifies this
      ensures Linked() && State() == Dispatch.Schedule(old(State()), now)
      ensures halted || Inv(State())
    {
      hide Count, Rep, Shape, Maintain, OthersListed, Inv, Requeue, Pick, Tidy;
      ghost var s0 := State();
      ScheduleKeeps(s0, now);
      TickKeeps(s0, now);
      cycles := cycles + 1;
      if cycles > MAX_CYCLES {
        cycles := 0;
        Maintenance(now);
      }
      ListedCalm(State());
      RequeueCurrent();
      PickNext();
    }

    // ---- The library calls --------------------------------------------------------------------

    method Create(now: int) returns (id: nat)
      requires Valid()
      modifies this
      ensures Valid() && State() == Step(old(State()), Event.Create, now)
      ensures id == old(threadNum) && id in threads && id in lists[0]
    {
      hide Count, Rep, Inv, Shape, Dispatch.Schedule, Enq;
      CreateKeeps(State(), now);
      NewThread(State(), now);
      EnqLast(Q().(info := info[threadNum := Info(0, now, 0.0, NEUTRAL, 0)]), 0, threadNum);
      id := threadNum;
      threadNum := threadNum + 1;
      threads := threads[id := Thread(false, 0)];
      NewNode(next, queues, joinList, lists, id);
      info := info[id := Info(0, now, 0.0, NEUTRAL, 0)];
      next := next[id := 0];
      EnQ(0, id);
    }

    method Yield(now: int)
      requires Valid()
      modifies this
      ensures Linked() && State() == Step(old(State()), Event.Yield, now) && (halted || Valid())
    {
      hide Count, Rep, Inv, Shape, Dispatch.Schedule, OthersListed;
      MarkCurrent(YIELDING);
      Schedule(now);
    }

    /** The alarm signal: the running thread's quantum is used up. */
    method TimerHandler(now: int)
      requires Valid()
      modifies this
      ensures Linked() && State() == Step(old(State()), Event.Timer, now) && (halted || Valid())
    {
      hide Count, Rep, Shape, Settled, Core, Dispatch.Schedule;
      Schedule(now);
    }

    method Exit(arg: int, now: int)
      requires Valid()
      modifies this
      ensures Linked() && State() == Step(old(State()), Event.Exit(arg), now) && (halted || Valid())
    {
      hide Count, Rep, Shape, Inv, Dispatch.Schedule, OthersListed;
      ghost var s := State();
      StatusShape(Q(), current, EXITING);
      info := info[current := info[current].(status := EXITING)];
      if current in threads {
        threads := threads[current := threads[current].(exitArg := arg)];
      }
      CallKeeps(s, State());
      Schedule(now);
    }

    /** A thread function returned: the context linked behind it marks the thread and schedules. */
    method TerminationHandler(now: int)
      requires Valid()
      modifies this
      ensures Linked() && State() == Step(old(State()), Event.Return, now) && (halted || Valid())
    {
      hide Count, Rep, Inv, Shape, Dispatch.Schedule, OthersListed;
      MarkCurrent(EXITING);
      Schedule(now);
    }

    /** `my_pthread_join`: 0 where it succeeds at once or waits, 1 where there is no such thread.
        `value` is the exit value handed over when the thread is already dead. */
    method Join(t: nat, now: int) returns (r: int, value: int)
      requires Valid()
      modifies this
      ensures Linked() && State() == Step(old(State()), Event.Join(t), now) && (halted || Valid())
      ensures r == if t in old(threads) then 0 else 1
      ensures t in old(threads) && old(threads)[t].isDead ==>
        value == old(threads)[t].exitArg && State() == old(State())
    {
      hide Count, Rep, Shape, Inv, Dispatch.Schedule, OthersListed;
      if t !in threads {
        return 1, 0;
      }
      value := threads[t].exitArg;
      if !threads[t].isDead {
        ghost var s := State();
        JoinShape(Q(), current, t);
        info := info[current := info[current].(joinee := t)];
        info := info[current := info[current].(status := JOINING)];
        CallKeeps(s, State());
        Schedule(now);
      }
      r := 0;
    }

    method MarkCurrent(st: Status)
      requires Valid() && st != JOINING
      modifies this`info
      ensures Linked() && State() == SetStatus(old(State()), st) && OthersListed(State()) && !halted
    {
      hide Count, Rep, Shape;
      ghost var s := State();
      StatusShape(Q(), current, st);
      info := info[current := info[current].(status := st)];
      CallKeeps(s, State());
    }
  }

  lemma JoinShape(q: Queues, n: nat, t: nat)
    requires Shape(q) && n in q.info
    ensures Shape(q.(info := q.info[n := q.info[n].(joinee := t)][n := q.info[n].(joinee := t, status := JOINING)]))
  {
  }

  lemma NewNode(next: map<nat, nat>, queues: seq<Queue>, joinList: nat, lists: seq<seq<nat>>, n: nat)
    requires Rep(next, queues, joinList, lists) && Count(lists, n) == 0
    ensures Rep(next[n := 0], queues, joinList, lists)
  {
    hide Count, Chain;
    Absent(lists, n);
    forall i | 0 <= i < QUEUES ensures QueueRep(next[n := 0], queues[i], lists[i]) {
      ChainFrame(next, next[n := 0], queues[i].head, lists[i]);
    }
    ChainFrame(next, next[n := 0], joinList, lists[JOIN]);
  }

  lemma NewThread(s: Sched, now: int)
    requires Inv(s)
    ensures s.threadNum !in s.q.info && s.threadNum != 0 && Count(s.q.lists, s.threadNum) == 0
    ensures Shape(s.q.(info := s.q.info[s.threadNum := Info(0, now, 0.0, NEUTRAL, 0)]))
  {
  }

  lemma EnqLast(q: Queues, i: nat, n: nat)
    requires Shape(q) && i < LEVELS && n in q.info
    ensures |Enq(q, i, n).lists| == LISTS && n in Enq(q, i, n).lists[i]
  {
  }

  lemma EnqLinks(next: map<nat, nat>, queues: seq<Queue>, joinList: nat, lists: seq<seq<nat>>, i: nat, n: nat)
    requires Rep(next, queues, joinList, lists) && i < QUEUES && n != 0 && Count(lists, n) == 0
    ensures var q, s := queues[i], lists[i];
      && (q.head == 0 <==> s == [])
      && (s != [] ==> q.rear in next)
      && Rep(if s == [] then next[n := 0] else next[q.rear := n][n := 0],
             queues[i := Queue(if s == [] then n else q.head, n)], joinList, lists[i := s + [n]])
  {
    hide Count;
    var q, s := queues[i], lists[i];
    Absent(lists, n);
    SimpleApart(lists, i, i);
    var next' := if s == [] then next[n := 0] else next[q.rear := n][n := 0];
    ChainAppend(next, q, s, n, next');
    var ls' := lists[i := s + [n]];
    forall x ensures Count(ls', x) <= 1 { CountUpdate(lists, i, s + [n], x); }
    forall j | 0 <= j < LISTS && j != i ensures SameLinks(next, next', lists[j]) { SimpleApart(lists, i, j); }
    RepUpdate(next, next', queues, joinList, lists, i, Queue(First(s + [n]), n), s + [n]);
  }

  lemma DeqLinks(next: map<nat, nat>, queues: seq<Queue>, joinList: nat, lists: seq<seq<nat>>, i: nat)
    requires Rep(next, queues, joinList, lists) && i < QUEUES && lists[i] != []
    ensures var q, s := queues[i], lists[i];
      && q.head == s[0] && q.head in next && (next[q.head] == 0 <==> |s| == 1)
      && Rep(next[q.head := 0], queues[i := Queue(next[q.head], if next[q.head] == 0 then 0 else q.rear)], joinList,
        lists[i := s[1..]])
  {
    hide Count;
    var q, s := queues[i], lists[i];
    SimpleApart(lists, i, i);
    ChainPop(next, q.head, s);
    var ls' := lists[i := s[1..]];
    forall x ensures Count(ls', x) <= 1 {
      CountUpdate(lists, i, s[1..], x);
      assert s == [s[0]] + s[1..];
    }
    var next' := next[q.head := 0];
    forall j | 0 <= j < LISTS && j != i ensures SameLinks(next, next', lists[j]) { SimpleApart(lists, i, j); }
    RepUpdate(next, next', queues, joinList, lists, i, Queue(next[q.head], if next[q.head] == 0 then 0 else q.rear),
      s[1..]);
  }

  lemma InsertEnd(s: seq<nat>, n: nat)
    ensures InsertAt(s, |s|, n) == s + [n]
  {
  }

  /** What a walk finds at position `p` of queue `i`. */
  lemma LinkAt(next: map<nat, nat>, queues: seq<Queue>, joinList: nat, lists: seq<seq<nat>>, i: nat, p: nat)
    requires Rep(next, queues, joinList, lists) && i < QUEUES && p < |lists[i]|
    ensures lists[i][p] in next && lists[i][p] != 0 && queues[i].head == lists[i][0]
    ensures next[lists[i][p]] == if p + 1 < |lists[i]| then lists[i][p + 1] else 0
  {
  }

  lemma ChainStart(next: map<nat, nat>, head: nat, s: seq<nat>)
    requires Chain(next, head, s)
    ensures head == First(s)
  {
  }

  lemma InsertLinks(next: map<nat, nat>, queues: seq<Queue>, joinList: nat, lists: seq<seq<nat>>, i: nat, p: nat,
    n: nat)
    requires Rep(next, queues, joinList, lists) && i < QUEUES && p < |lists[i]| && n != 0 && Count(lists, n) == 0
    ensures var q, s := queues[i], lists[i];
      Rep(if p == 0 then next[n := s[0]] else next[n := s[p]][s[p - 1] := n],
          queues[i := if p == 0 then q.(head := n) else q], joinList, lists[i := InsertAt(s, p, n)])
  {
    hide Count;
    var q, s := queues[i], lists[i];
    Absent(lists, n);
    SimpleApart(lists, i, i);
    var next' := if p == 0 then next[n := s[0]] else next[n := s[p]][s[p - 1] := n];
    ChainInsert(next, q, s, p, n, next');
    var ls' := lists[i := InsertAt(s, p, n)];
    forall x ensures Count(ls', x) <= 1 {
      CountUpdate(lists, i, InsertAt(s, p, n), x);
      InsertCount(s, p, n, x);
    }
    forall j | 0 <= j < LISTS && j != i ensures SameLinks(next, next', lists[j]) { SimpleApart(lists, i, j); }
    hide Chain, InsertAt;
    RepUpdate(next, next', queues, joinList, lists, i, if p == 0 then q.(head := n) else q, InsertAt(s, p, n));
  }

  lemma PushLinks(next: map<nat, nat>, queues: seq<Queue>, joinList: nat, lists: seq<seq<nat>>, n: nat)
    requires Rep(next, queues, joinList, lists) && n != 0 && Count(lists, n) == 0
    ensures Rep(next[n := joinList], queues, n, lists[JOIN := [n] + lists[JOIN]])
  {
    hide Count;
    var s, next' := lists[JOIN], next[n := joinList];
    Absent(lists, n);
    ChainPush(next, joinList, s, n);
    var ls' := lists[JOIN := [n] + s];
    forall x ensures Count(ls', x) <= 1 { CountUpdate(lists, JOIN, [n] + s, x); }
    RepUpdateJoin(next, next', queues, joinList, lists, n, [n] + s);
  }

  lemma RemoveSimple(lists: seq<seq<nat>>, k: nat)
    requires |lists| == LISTS && Simple(lists) && k < |lists[JOIN]|
    ensures Simple(lists[JOIN := Without(lists[JOIN], k)])
  {
    hide Count;
    var s := lists[JOIN];
    var ls' := lists[JOIN := Without(s, k)];
    forall x ensures Count(ls', x) <= 1 {
      CountUpdate(lists, JOIN, Without(s, k), x);
      assert s == s[..k] + [s[k]] + s[k + 1..];
    }
  }

  lemma RemoveLinks(next: map<nat, nat>, queues: seq<Queue>, joinList: nat, lists: seq<seq<nat>>, k: nat)
    requires Rep(next, queues, joinList, lists) && k < |lists[JOIN]|
    ensures var s := lists[JOIN];
      && s[k] in next && s[k] != 0 && (k > 0 ==> s[k - 1] in next && s[k - 1] != 0)
      && Rep(if k == 0 then next[s[0] := 0] else next[s[k - 1] := next[s[k]]][s[k] := 0],
             queues, if k == 0 then next[s[0]] else joinList, lists[JOIN := Without(s, k)])
  {
    hide Count;
    var s := lists[JOIN];
    var next' := if k == 0 then next[s[0] := 0] else next[s[k - 1] := next[s[k]]][s[k] := 0];
    assert Chain(next', if k == 0 then next[s[0]] else joinList, Without(s, k)) by {
      SimpleApart(lists, JOIN, JOIN);
      ChainRemove(next, joinList, s, k, next');
    }
    hide Chain;
    hide Without;
    RemoveSimple(lists, k);
    forall j | 0 <= j < QUEUES ensures SameLinks(next, next', lists[j]) { SimpleApart(lists, JOIN, j); }
    RepUpdateJoin(next, next', queues, joinList, lists, if k == 0 then next[s[0]] else joinList, Without(s, k));
  }

  lemma ZeroUnlisted(q: Queues, i: nat)
    requires Shape(q) && 0 !in q.info && i < LISTS
    ensures q.lists[i] == [] || q.lists[i][0] != 0
  {
  }

  lemma HeadNotZero(q: Queues, i: nat)
    requires Shape(q) && i < LISTS && q.lists[i] != []
    ensures q.lists[i][0] in q.info
  {
  }

  lemma AgedShape(q: Queues, n: nat, now: int)
    requires Shape(q) && n in q.info
    ensures Shape(Aged(q, n, now))
  {
  }

  lemma QuotaIs(n: nat, i: nat, level: nat)
    requires level <= i + 1
    ensures n - (n / (i + 2)) * (i + 1) >= 0
    ensures Quota(n, i, level) == if level > 0 then n / (i + 2) else n - (n / (i + 2)) * (i + 1)
  {
  }

  /** Draining level `i + 1` touches no other run queue. */
  lemma {:induction false} DrainFrame(q: Queues, i: nat, now: int)
    requires Shape(q) && i < LEVELS - 1
    ensures |Drain(q, i, now).lists| == LISTS
    ensures forall l :: 0 <= l < LEVELS && l != i + 1 ==> Drain(q, i, now).lists[l] == q.lists[l]
    decreases |q.lists[i + 1]|
  {
    if q.lists[i + 1] == [] {
    } else {
      DrainOneShorter(q, i, now);
      DrainFrame(DrainOne(q, i, now), i, now);
    }
  }

  lemma JoinStart(next: map<nat, nat>, queues: seq<Queue>, joinList: nat, lists: seq<seq<nat>>)
    requires Rep(next, queues, joinList, lists)
    ensures joinList == First(lists[JOIN])
  {
  }

  lemma JoinAt(next: map<nat, nat>, queues: seq<Queue>, joinList: nat, lists: seq<seq<nat>>, k: nat)
    requires Rep(next, queues, joinList, lists) && k < |lists[JOIN]|
    ensures lists[JOIN][k] in next && lists[JOIN][k] != 0
    ensures next[lists[JOIN][k]] == if k + 1 < |lists[JOIN]| then lists[JOIN][k + 1] else 0
  {
  }

  lemma JoinEnd(next: map<nat, nat>, queues: seq<Queue>, joinList: nat, lists: seq<seq<nat>>, k: nat)
    requires Rep(next, queues, joinList, lists)
    ensures k < |lists[JOIN]| ==> lists[JOIN][k] != 0
  {
  }

  lemma QueueHead(next: map<nat, nat>, queues: seq<Queue>, joinList: nat, lists: seq<seq<nat>>, i: nat)
    requires Rep(next, queues, joinList, lists) && i < QUEUES
    ensures queues[i].head == 0 <==> lists[i] == []
    ensures lists[i] != [] ==> queues[i].head == lists[i][0]
  {
  }

  lemma JoinKnown(q: Queues)
    requires Shape(q)
    ensures Known(q.lists[JOIN], q.info)
  {
  }

  lemma KnownPriority(q: Queues, n: nat)
    requires Shape(q) && n in q.info
    ensures q.info[n].priority < LEVELS
  {
  }

  lemma StatusShape(q: Queues, n: nat, st: Status)
    requires Shape(q) && n in q.info
    ensures Shape(q.(info := q.info[n := q.info[n].(status := st)]))
  {
  }

  lemma ReadyIs(lists: seq<seq<nat>>, i: nat, l: nat)
    requires i <= l <= LEVELS <= |lists| && (l < LEVELS ==> lists[l] != [])
    requires forall k :: i <= k < l ==> lists[k] == []
    ensures Ready(lists, i) == l
    decreases LEVELS - i
  {
  }
}
