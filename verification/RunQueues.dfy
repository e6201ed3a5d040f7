/** The scheduler's lists as values: five run queues, four promotion queues and the join list,
    holding threads by id, with the node fields that the queue operations read and write. */
module RunQueues {

  const LEVELS: nat := 5
  const LISTS: nat := 10
  const JOIN: nat := 9
  const CLOCKS_PER_SEC: real := 1000000.0

  datatype Status = NEUTRAL | YIELDING | EXITING | JOINING

  /** The fields of a node other than its link. `joinee` is 0 for none. */
  datatype Info = Info(priority: nat, created: int, runtime: real, status: Status, joinee: nat)

  /** `lists[0..5]` are the run queues, `lists[5..9]` the promotion queues, `lists[9]` the join list. */
  datatype Queues = Queues(lists: seq<seq<nat>>, info: map<nat, Info>)

  ghost predicate Shape(s: Queues)
    ensures Shape(s) ==> |s.lists| == LISTS
  {
    && |s.lists| == LISTS
    && (forall i, k :: 0 <= i < LISTS && 0 <= k < |s.lists[i]| ==> s.lists[i][k] in s.info)
    && (forall n :: n in s.info ==> s.info[n].priority < LEVELS)
  }

  /** How often thread `n` occurs on the lists. */
  ghost function Count(lists: seq<seq<nat>>, n: nat): nat
  {
    if lists == [] then 0 else multiset(lists[0])[n] + Count(lists[1..], n)
  }

  lemma {:induction false} CountUpdate(lists: seq<seq<nat>>, i: nat, x: seq<nat>, n: nat)
    requires i < |lists|
    ensures Count(lists[i := x], n) == Count(lists, n) - multiset(lists[i])[n] + multiset(x)[n]
  {
    if i == 0 {
      assert lists[i := x][1..] == lists[1..];
    } else {
      CountUpdate(lists[1..], i - 1, x, n);
      assert lists[i := x][1..] == lists[1..][i - 1 := x];
    }
  }

  /** No thread occurs twice, on one list or across lists. */
  ghost predicate Simple(lists: seq<seq<nat>>)
  {
    forall n :: Count(lists, n) <= 1
  }

  lemma {:induction false} Counted(lists: seq<seq<nat>>, i: nat, n: nat)
    requires i < |lists|
    ensures multiset(lists[i])[n] <= Count(lists, n)
  {
    if i == 0 {
    } else {
      Counted(lists[1..], i - 1, n);
    }
  }

  lemma SimpleApart(lists: seq<seq<nat>>, i: nat, j: nat)
    requires Simple(lists) && i < |lists| && j < |lists|
    ensures forall a, b :: 0 <= a < |lists[i]| && 0 <= b < |lists[j]| && (i != j || a != b) ==>
      lists[i][a] != lists[j][b]
  {
    forall a, b | 0 <= a < |lists[i]| && 0 <= b < |lists[j]| && (i != j || a != b) ensures lists[i][a] != lists[j][b] {
      if lists[i][a] == lists[j][b] {
        Twice(lists, i, a, j, b);
        assert false;
      }
    }
  }

  lemma Twice(lists: seq<seq<nat>>, i: nat, a: nat, j: nat, b: nat)
    requires i < |lists| && j < |lists| && a < |lists[i]| && b < |lists[j]| && (i != j || a != b)
    requires lists[i][a] == lists[j][b]
    ensures Count(lists, lists[i][a]) >= 2
  {
    var n := lists[i][a];
    if i == j {
      TwiceIn(lists[i], if a < b then a else b, if a < b then b else a);
      Counted(lists, i, n);
    } else {
      CountUpdate(lists, i, [], n);
      Counted(lists[i := []], j, n);
      assert n in multiset(lists[j]) && n in multiset(lists[i]);
    }
  }

  lemma TwiceIn(s: seq<nat>, a: nat, b: nat)
    requires a < b < |s| && s[a] == s[b]
    ensures multiset(s)[s[a]] >= 2
  {
    assert s == s[..b] + [s[b]] + s[b + 1..];
    assert s[a] in s[..b];
  }

  // ---- Queue operations -----------------------------------------------------------------

  /** `enQ` on run queue `i`: a YIELDING node keeps its priority unless the queue was empty. */
  ghost function Enq(s: Queues, i: nat, n: nat): Queues
    requires |s.lists| == LISTS && i < LEVELS && n in s.info
  {
    Queues(s.lists[i := s.lists[i] + [n]],
           if s.lists[i] == [] || s.info[n].status != YIELDING then s.info[n := s.info[n].(priority := i)] else s.info)
  }

  ghost function Deq(s: Queues, i: nat): Queues
    requires i < |s.lists| && s.lists[i] != []
  {
    s.(lists := s.lists[i := s.lists[i][1..]])
  }

  /** Where `insertByTime` puts a node with runtime `t`: before the first one that ran less. */
  ghost function TimePos(q: seq<nat>, t: real, info: map<nat, Info>): (p: nat)
    requires forall k :: 0 <= k < |q| ==> q[k] in info
    ensures p <= |q|
    ensures forall k :: 0 <= k < p ==> info[q[k]].runtime >= t
    ensures p < |q| ==> info[q[p]].runtime < t
  {
    if q == [] || t > info[q[0]].runtime then 0 else 1 + TimePos(q[1..], t, info)
  }

  lemma TimePosIs(q: seq<nat>, t: real, info: map<nat, Info>, p: nat)
    requires forall k :: 0 <= k < |q| ==> q[k] in info
    requires p <= |q| && (p < |q| ==> info[q[p]].runtime < t)
    requires forall k :: 0 <= k < p ==> info[q[k]].runtime >= t
    ensures TimePos(q, t, info) == p
  {
  }

  ghost function InsertAt(q: seq<nat>, p: nat, n: nat): seq<nat>
    requires p <= |q|
  {
    q[..p] + [n] + q[p..]
  }

  /** `insertByTime`. */
  ghost function Insert(s: Queues, i: nat, n: nat): Queues
    requires Shape(s) && i < LISTS && n in s.info
  {
    s.(lists := s.lists[i := InsertAt(s.lists[i], TimePos(s.lists[i], s.info[n].runtime, s.info), n)])
  }

  function Age(now: int, created: int): real {
    (now - created) as real / CLOCKS_PER_SEC
  }

  ghost function Aged(s: Queues, n: nat, now: int): Queues
    requires n in s.info
  {
    s.(info := s.info[n := s.info[n].(runtime := Age(now, s.info[n].created))])
  }

  // ---- Maintenance ------------------------------------------------------------------------

  /** One round of the first phase: the head of run queue `i + 1` goes to promotion queue `i`. */
  ghost function DrainOne(s: Queues, i: nat, now: int): (r: Queues)
    requires Shape(s) && i < LEVELS - 1 && s.lists[i + 1] != []
    ensures Shape(r) && r.info.Keys == s.info.Keys
  {
    var n := s.lists[i + 1][0];
    assert n in s.info;
    Insert(Aged(Deq(s, i + 1), n, now), LEVELS + i, n)
  }

  ghost function Drain(s: Queues, i: nat, now: int): (r: Queues)
    requires Shape(s) && i < LEVELS - 1
    ensures Shape(r) && r.info.Keys == s.info.Keys
    decreases if i + 1 < |s.lists| then |s.lists[i + 1]| else 0
  {
    if s.lists[i + 1] == [] then s else Drain(DrainOne(s, i, now), i, now)
  }

  /** One move of the second phase, skipped when promotion queue `i` is empty. */
  ghost function TakeOne(s: Queues, i: nat, level: nat): (r: Queues)
    requires Shape(s) && i < LEVELS - 1 && level < LEVELS
    ensures Shape(r) && r.info.Keys == s.info.Keys
  {
    if s.lists[LEVELS + i] == [] then s else Enq(Deq(s, LEVELS + i), level, s.lists[LEVELS + i][0])
  }

  ghost function Take(s: Queues, i: nat, level: nat, k: nat): (r: Queues)
    requires Shape(s) && i < LEVELS - 1 && level < LEVELS
    ensures Shape(r) && r.info.Keys == s.info.Keys
    decreases k
  {
    if k == 0 then s else Take(TakeOne(s, i, level), i, level, k - 1)
  }

  ghost function Times(a: nat, b: nat): nat {
    a * b
  }

  /** An equal part of `n` nodes drained from level `i + 1`, one of `i + 2`. */
  ghost function Chunk(n: nat, i: nat): nat {
    n / (i + 2)
  }

  lemma ChunksFit(n: nat, i: nat)
    ensures Times(i + 1, Chunk(n, i)) + Chunk(n, i) == Times(i + 2, Chunk(n, i)) <= n
  {
  }

  /** How many nodes of the `n` that were drained to promotion queue `i` go to `level`. */
  ghost function Quota(n: nat, i: nat, level: nat): nat
    requires level <= i + 1
  {
    ChunksFit(n, i);
    if level > 0 then Chunk(n, i) else n - Times(i + 1, Chunk(n, i))
  }

  /** Levels `j - 1` down to 0 get their quota, in that order. */
  ghost function Deal(s: Queues, i: nat, j: nat, n: nat): (r: Queues)
    requires Shape(s) && i < LEVELS - 1 && j <= i + 2
    ensures Shape(r) && r.info.Keys == s.info.Keys
    decreases j
  {
    if j == 0 then s else Deal(Take(s, i, j - 1, Quota(n, i, j - 1)), i, j - 1, n)
  }

  ghost function DrainAll(s: Queues, i: nat, now: int): (r: Queues)
    requires Shape(s) && i <= LEVELS - 1
    ensures Shape(r) && r.info.Keys == s.info.Keys
    decreases LEVELS - 1 - i
  {
    if i == LEVELS - 1 then s else DrainAll(Drain(s, i, now), i + 1, now)
  }

  ghost function DealAll(s: Queues, i: nat, counts: seq<nat>): (r: Queues)
    requires Shape(s) && i <= LEVELS - 1 == |counts|
    ensures Shape(r) && r.info.Keys == s.info.Keys
    decreases LEVELS - 1 - i
  {
    if i == LEVELS - 1 then s else DealAll(Deal(s, i, i + 2, counts[i]), i + 1, counts)
  }

  ghost function Counts(s: Queues): seq<nat>
    requires |s.lists| == LISTS
  {
    [|s.lists[1]|, |s.lists[2]|, |s.lists[3]|, |s.lists[4]|]
  }

  ghost function Maintain(s: Queues, now: int): (r: Queues)
    requires Shape(s)
    ensures Shape(r) && r.info.Keys == s.info.Keys
  {
    DealAll(DrainAll(s, 0, now), 0, Counts(s))
  }

  // ---- What every queue operation keeps ---------------------------------------------------

  /** Same threads on the lists, equally often, with the same identity, status and joinee; the
      join list is untouched. */
  ghost predicate SameNodes(s: Queues, r: Queues)
    requires |s.lists| == |r.lists| == LISTS
  {
    && r.info.Keys == s.info.Keys
    && (forall n :: n in s.info ==>
          r.info[n].created == s.info[n].created && r.info[n].status == s.info[n].status
            && r.info[n].joinee == s.info[n].joinee)
    && (forall n :: Count(r.lists, n) == Count(s.lists, n))
    && r.lists[JOIN] == s.lists[JOIN]
  }

  /** Every node in run queue `i` stores priority `i`. */
  ghost predicate Leveled(s: Queues)
    requires Shape(s)
  {
    forall i, k :: 0 <= i < LEVELS && 0 <= k < |s.lists[i]| ==> s.info[s.lists[i][k]].priority == i
  }

  /** No listed node is marked YIELDING. */
  ghost predicate Calm(s: Queues)
  {
    forall n :: n in s.info && Count(s.lists, n) > 0 ==> s.info[n].status != YIELDING
  }

  ghost predicate Tidy(s: Queues)
    ensures Tidy(s) ==> Shape(s) && |s.lists| == LISTS
  {
    Shape(s) && Simple(s.lists) && Leveled(s) && Calm(s)
  }

  lemma Absent(lists: seq<seq<nat>>, n: nat)
    requires Count(lists, n) == 0
    ensures forall i :: 0 <= i < |lists| ==> n !in lists[i]
  {
  }

  /** Queueing a thread that is on no list adds one occurrence of it and keeps every node's
      priority equal to its level, although a YIELDING node's priority is not rewritten. */
  lemma EnqKeeps(s: Queues, i: nat, n: nat)
    requires Shape(s) && Leveled(s) && i < LEVELS && n in s.info && Count(s.lists, n) == 0
    requires s.info[n].status != YIELDING || s.info[n].priority == i
    ensures Shape(Enq(s, i, n)) && Leveled(Enq(s, i, n)) && Enq(s, i, n).info[n].priority == i
    ensures forall x :: Count(Enq(s, i, n).lists, x) == Count(s.lists, x) + (if x == n then 1 else 0)
  {
    var r := Enq(s, i, n);
    Absent(s.lists, n);
    forall x ensures Count(r.lists, x) == Count(s.lists, x) + (if x == n then 1 else 0) {
      CountUpdate(s.lists, i, s.lists[i] + [n], x);
    }
    forall j, k | 0 <= j < LISTS && 0 <= k < |r.lists[j]|
      ensures r.lists[j][k] in r.info && (j < LEVELS ==> r.info[r.lists[j][k]].priority == j)
    {
      if j != i || k < |s.lists[i]| { assert r.lists[j][k] == s.lists[j][k]; }
    }
  }

  lemma DeqKeeps(s: Queues, i: nat)
    requires Shape(s) && i < LISTS && s.lists[i] != [] && Simple(s.lists)
    ensures var n, r := s.lists[i][0], Deq(s, i);
      && Shape(r) && (Leveled(s) ==> Leveled(r)) && Count(r.lists, n) == 0
      && forall x :: Count(r.lists, x) == Count(s.lists, x) - (if x == n then 1 else 0)
  {
    var n, r := s.lists[i][0], Deq(s, i);
    forall x ensures Count(r.lists, x) == Count(s.lists, x) - (if x == n then 1 else 0) {
      CountUpdate(s.lists, i, s.lists[i][1..], x);
      assert s.lists[i] == [n] + s.lists[i][1..];
    }
    forall j, k | 0 <= j < LISTS && 0 <= k < |r.lists[j]| ensures r.lists[j][k] in s.lists[j] {
      if j == i { assert r.lists[j][k] == s.lists[i][k + 1]; }
    }
    forall j, k | 0 <= j < LISTS && 0 <= k < |r.lists[j]| && Leveled(s) && j < LEVELS
      ensures s.info[r.lists[j][k]].priority == j
    {
      if j == i { assert r.lists[j][k] == s.lists[i][k + 1]; }
    }
  }

  /** Inserting by time a thread that is on no list adds one occurrence of it. */
  lemma InsertKeeps(s: Queues, i: nat, n: nat)
    requires Shape(s) && LEVELS <= i < JOIN && n in s.info
    ensures var r := Insert(s, i, n);
      && r.info == s.info && r.lists[JOIN] == s.lists[JOIN] && Shape(r) && (Leveled(s) ==> Leveled(r))
      && forall x :: Count(r.lists, x) == Count(s.lists, x) + (if x == n then 1 else 0)
  {
    hide Count, TimePos, InsertAt;
    var q := s.lists[i];
    var p := TimePos(q, s.info[n].runtime, s.info);
    forall x ensures Count(Insert(s, i, n).lists, x) == Count(s.lists, x) + (if x == n then 1 else 0) {
      CountUpdate(s.lists, i, InsertAt(q, p, n), x);
      InsertCount(q, p, n, x);
    }
    InsertMembers(q, p, n);
  }

  lemma InsertCount(q: seq<nat>, p: nat, n: nat, x: nat)
    requires p <= |q|
    ensures multiset(InsertAt(q, p, n))[x] == multiset(q)[x] + (if x == n then 1 else 0)
  {
    assert q == q[..p] + q[p..];
  }

  lemma InsertMembers(q: seq<nat>, p: nat, n: nat)
    requires p <= |q|
    ensures forall k :: 0 <= k < |InsertAt(q, p, n)| ==> InsertAt(q, p, n)[k] == n || InsertAt(q, p, n)[k] in q
  {
  }

  lemma DrainOneKeeps(s: Queues, i: nat, now: int)
    requires Tidy(s) && i < LEVELS - 1 && s.lists[i + 1] != []
    ensures Tidy(DrainOne(s, i, now)) && SameNodes(s, DrainOne(s, i, now))
  {
    hide Count, Insert;
    var n := s.lists[i + 1][0];
    DeqKeeps(s, i + 1);
    var d := Aged(Deq(s, i + 1), n, now);
    assert Leveled(d);
    InsertKeeps(d, LEVELS + i, n);
  }

  lemma TakeOneKeeps(s: Queues, i: nat, level: nat)
    requires Tidy(s) && i < LEVELS - 1 && level < LEVELS
    ensures Tidy(TakeOne(s, i, level)) && SameNodes(s, TakeOne(s, i, level))
  {
    hide Count, Leveled;
    if s.lists[LEVELS + i] != [] {
      var n := s.lists[LEVELS + i][0];
      DeqKeeps(s, LEVELS + i);
      EnqKeeps(Deq(s, LEVELS + i), level, n);
    }
  }

  lemma SameNodesTwice(a: Queues, b: Queues, c: Queues)
    requires |a.lists| == |b.lists| == |c.lists| == LISTS && SameNodes(a, b) && SameNodes(b, c)
    ensures SameNodes(a, c)
  {
  }

  lemma {:induction false} DrainKeeps(s: Queues, i: nat, now: int)
    requires Tidy(s) && i < LEVELS - 1
    ensures Tidy(Drain(s, i, now)) && SameNodes(s, Drain(s, i, now))
    decreases |s.lists[i + 1]|
  {
    hide SameNodes, Tidy, DrainOne;
    if s.lists[i + 1] == [] {
      SameNodesRefl(s);
    } else {
      var d := DrainOne(s, i, now);
      DrainOneKeeps(s, i, now);
      DrainOneShorter(s, i, now);
      DrainKeeps(d, i, now);
      SameNodesTwice(s, d, Drain(d, i, now));
    }
  }

  lemma SameNodesRefl(s: Queues)
    requires |s.lists| == LISTS
    ensures SameNodes(s, s)
  {
  }

  lemma DrainOneShorter(s: Queues, i: nat, now: int)
    requires Shape(s) && i < LEVELS - 1 && s.lists[i + 1] != []
    ensures |DrainOne(s, i, now).lists| == LISTS && DrainOne(s, i, now).lists[i + 1] == s.lists[i + 1][1..]
  {
  }

  lemma {:induction false} TakeKeeps(s: Queues, i: nat, level: nat, k: nat)
    requires Tidy(s) && i < LEVELS - 1 && level < LEVELS
    ensures Tidy(Take(s, i, level, k)) && SameNodes(s, Take(s, i, level, k))
    decreases k
  {
    hide SameNodes, TakeOne, Shape, Tidy;
    if k == 0 {
      SameNodesRefl(s);
    } else {
      var d := TakeOne(s, i, level);
      TakeOneKeeps(s, i, level);
      TakeKeeps(d, i, level, k - 1);
      SameNodesTwice(s, d, Take(d, i, level, k - 1));
    }
  }

  lemma {:induction false} DealKeeps(s: Queues, i: nat, j: nat, n: nat)
    requires Tidy(s) && i < LEVELS - 1 && j <= i + 2
    ensures Tidy(Deal(s, i, j, n)) && SameNodes(s, Deal(s, i, j, n))
    decreases j
  {
    hide SameNodes, Take, Shape, Tidy;
    if j == 0 {
      SameNodesRefl(s);
    } else {
      var d := Take(s, i, j - 1, Quota(n, i, j - 1));
      TakeKeeps(s, i, j - 1, Quota(n, i, j - 1));
      DealKeeps(d, i, j - 1, n);
      SameNodesTwice(s, d, Deal(d, i, j - 1, n));
    }
  }

  lemma {:induction false} DrainAllKeeps(s: Queues, i: nat, now: int)
    requires Tidy(s) && i <= LEVELS - 1
    ensures Tidy(DrainAll(s, i, now)) && SameNodes(s, DrainAll(s, i, now))
    decreases LEVELS - 1 - i
  {
    hide SameNodes, Drain, Shape, Tidy;
    if i == LEVELS - 1 {
      SameNodesRefl(s);
    } else {
      var d := Drain(s, i, now);
      DrainKeeps(s, i, now);
      DrainAllKeeps(d, i + 1, now);
      SameNodesTwice(s, d, DrainAll(d, i + 1, now));
    }
  }

  lemma {:induction false} DealAllKeeps(s: Queues, i: nat, counts: seq<nat>)
    requires Tidy(s) && i <= LEVELS - 1 == |counts|
    ensures Tidy(DealAll(s, i, counts)) && SameNodes(s, DealAll(s, i, counts))
    decreases LEVELS - 1 - i
  {
    hide SameNodes, Deal, Shape, Tidy;
    if i == LEVELS - 1 {
      SameNodesRefl(s);
    } else {
      var d := Deal(s, i, i + 2, counts[i]);
      DealKeeps(s, i, i + 2, counts[i]);
      DealAllKeeps(d, i + 1, counts);
      SameNodesTwice(s, d, DealAll(d, i + 1, counts));
    }
  }

  /** Maintenance loses and duplicates no thread, and every thread it moves takes the priority of
      the queue it lands in. */
  lemma MaintainKeeps(s: Queues, now: int)
    requires Tidy(s)
    ensures Tidy(Maintain(s, now)) && SameNodes(s, Maintain(s, now))
  {
    hide SameNodes, DrainAll, DealAll;
    var d := DrainAll(s, 0, now);
    DrainAllKeeps(s, 0, now);
    DealAllKeeps(d, 0, Counts(s));
    SameNodesTwice(s, d, Maintain(s, now));
  }

  // ---- Where maintenance sends whom -------------------------------------------------------

  /** Insertion sort, oldest first; among equally old threads the earlier one stays first. */
  ghost function AgePos(q: seq<nat>, n: nat, info: map<nat, Info>): (p: nat)
    requires n in info && forall k :: 0 <= k < |q| ==> q[k] in info
    ensures p <= |q|
    ensures forall k :: 0 <= k < p ==> info[q[k]].created <= info[n].created
    ensures p < |q| ==> info[n].created < info[q[p]].created
  {
    if q == [] || info[n].created < info[q[0]].created then 0 else 1 + AgePos(q[1..], n, info)
  }

  ghost predicate Known(q: seq<nat>, info: map<nat, Info>)
  {
    forall k :: 0 <= k < |q| ==> q[k] in info
  }

  ghost function ByAge(acc: seq<nat>, q: seq<nat>, info: map<nat, Info>): (r: seq<nat>)
    requires Known(acc, info) && Known(q, info)
    ensures |r| == |acc| + |q| && Known(r, info)
    decreases |q|
  {
    if q == [] then acc else ByAge(InsertAt(acc, AgePos(acc, q[0], info), q[0]), q[1..], info)
  }

  ghost predicate OldestFirst(q: seq<nat>, info: map<nat, Info>)
    requires Known(q, info)
  {
    forall a, b :: 0 <= a < b < |q| ==> info[q[a]].created <= info[q[b]].created
  }

  /** The sort is a sort: a permutation, oldest first. */
  lemma {:induction false} ByAgeSorts(acc: seq<nat>, q: seq<nat>, info: map<nat, Info>)
    requires Known(acc, info) && Known(q, info) && OldestFirst(acc, info)
    ensures OldestFirst(ByAge(acc, q, info), info)
    ensures multiset(ByAge(acc, q, info)) == multiset(acc) + multiset(q)
    decreases |q|
  {
    hide OldestFirst, InsertAt, AgePos;
    if q == [] {
    } else {
      var p := AgePos(acc, q[0], info);
      InsertOldest(acc, q[0], info);
      ByAgeSorts(InsertAt(acc, p, q[0]), q[1..], info);
      assert q == [q[0]] + q[1..];
    }
  }

  lemma InsertOldest(q: seq<nat>, n: nat, info: map<nat, Info>)
    requires n in info && Known(q, info) && OldestFirst(q, info)
    ensures var r := InsertAt(q, AgePos(q, n, info), n);
      Known(r, info) && OldestFirst(r, info) && multiset(r) == multiset(q) + multiset{n}
  {
    hide AgePos;
    var p := AgePos(q, n, info);
    var r := InsertAt(q, p, n);
    assert q == q[..p] + q[p..];
    assert forall k :: 0 <= k < |r| ==> r[k] == if k < p then q[k] else if k == p then n else q[k - 1];
  }

  /** Nodes whose runtime was just taken rank by age. */
  ghost predicate JustAged(q: seq<nat>, info: map<nat, Info>, now: int)
    requires Known(q, info)
  {
    forall k :: 0 <= k < |q| ==> info[q[k]].runtime == Age(now, info[q[k]].created)
  }

  lemma TimeIsAge(q: seq<nat>, n: nat, info: map<nat, Info>, now: int)
    requires Known(q, info) && n in info && JustAged(q, info, now)
    ensures TimePos(q, Age(now, info[n].created), info) == AgePos(q, n, info)
  {
  }

  /** The two infos agree on when threads were created. */
  ghost predicate SameAges(info: map<nat, Info>, info': map<nat, Info>)
  {
    info'.Keys == info.Keys && forall n :: n in info ==> info'[n].created == info[n].created
  }

  lemma AgePosSame(q: seq<nat>, n: nat, info: map<nat, Info>, info': map<nat, Info>)
    requires n in info && Known(q, info) && SameAges(info, info')
    ensures AgePos(q, n, info') == AgePos(q, n, info)
  {
  }

  lemma {:induction false} ByAgeSame(acc: seq<nat>, q: seq<nat>, info: map<nat, Info>, info': map<nat, Info>)
    requires Known(acc, info) && Known(q, info) && SameAges(info, info')
    ensures ByAge(acc, q, info') == ByAge(acc, q, info)
    decreases |q|
  {
    if q == [] {
    } else {
      AgePosSame(acc, q[0], info, info');
      ByAgeSame(InsertAt(acc, AgePos(acc, q[0], info), q[0]), q[1..], info, info');
    }
  }

  /** Draining run queue `i + 1` leaves it empty and its threads, oldest first, in promotion queue `i`. */
  lemma {:induction false} DrainIs(s: Queues, i: nat, now: int)
    requires Tidy(s) && i < LEVELS - 1 && JustAged(s.lists[LEVELS + i], s.info, now)
    ensures var r := Drain(s, i, now);
      r.lists == s.lists[i + 1 := []][LEVELS + i := ByAge(s.lists[LEVELS + i], s.lists[i + 1], s.info)]
    decreases |s.lists[i + 1]|
  {
    hide Tidy, DrainOne, AgePos, JustAged, SameNodes, InsertAt;
    var q := s.lists[i + 1];
    if q == [] {
      assert s.lists[i + 1 := []][LEVELS + i := s.lists[LEVELS + i]] == s.lists;
    } else {
      var d := DrainOne(s, i, now);
      DrainOneKeeps(s, i, now);
      DrainOneIs(s, i, now);
      DrainIs(d, i, now);
      ByAgeSame(d.lists[LEVELS + i], q[1..], s.info, d.info);
      assert Drain(s, i, now).lists == s.lists[i + 1 := []][LEVELS + i := ByAge(d.lists[LEVELS + i], q[1..], s.info)];
    }
  }

  lemma DrainOneIs(s: Queues, i: nat, now: int)
    requires Tidy(s) && i < LEVELS - 1 && s.lists[i + 1] != [] && JustAged(s.lists[LEVELS + i], s.info, now)
    ensures var r, n, acc := DrainOne(s, i, now), s.lists[i + 1][0], s.lists[LEVELS + i];
      && r.lists == s.lists[i + 1 := s.lists[i + 1][1..]][LEVELS + i := InsertAt(acc, AgePos(acc, n, s.info), n)]
      && JustAged(r.lists[LEVELS + i], r.info, now) && SameAges(s.info, r.info)
  {
    hide Count, TimePos, AgePos;
    var n, acc := s.lists[i + 1][0], s.lists[LEVELS + i];
    SimpleApart(s.lists, i + 1, LEVELS + i);
    assert n !in acc;
    var d := Aged(Deq(s, i + 1), n, now);
    TimeIsAge(acc, n, d.info, now);
    AgePosSame(acc, n, s.info, d.info);
    InsertMembers(acc, AgePos(acc, n, s.info), n);
  }

  /** Offset in the sorted queue at which level `j - 1`'s share begins. */
  ghost function Cut(n: nat, i: nat, j: nat): nat
    requires j <= i + 2
  {
    if j == 0 then n else Times(i + 2 - j, Chunk(n, i))
  }

  /** The part of the sorted promotion queue `a` of level `i + 1` that goes to `level`: equal
      chunks, oldest first, to levels `i + 1` down to 1, and all the rest to level 0. */
  ghost function Share(a: seq<nat>, i: nat, level: nat): seq<nat>
  {
    if level > i + 1 then []
    else
      CutStep(|a|, i, level + 1);
      a[Cut(|a|, i, level + 1)..Cut(|a|, i, level)]
  }

  lemma CutStep(n: nat, i: nat, j: nat)
    requires 1 <= j <= i + 2
    ensures Cut(n, i, j) + Quota(n, i, j - 1) == Cut(n, i, j - 1) <= n
  {
  }

  lemma TakeOneIs(s: Queues, i: nat, level: nat)
    requires Shape(s) && i < LEVELS - 1 && level < LEVELS && s.lists[LEVELS + i] != []
    ensures var q := s.lists[LEVELS + i];
      TakeOne(s, i, level).lists == s.lists[LEVELS + i := q[1..]][level := s.lists[level] + [q[0]]]
  {
  }

  lemma {:induction false} TakeIs(s: Queues, i: nat, level: nat, k: nat)
    requires Shape(s) && i < LEVELS - 1 && level < LEVELS && k <= |s.lists[LEVELS + i]|
    ensures var q := s.lists[LEVELS + i];
      Take(s, i, level, k).lists == s.lists[LEVELS + i := q[k..]][level := s.lists[level] + q[..k]]
    decreases k
  {
    hide TakeOne, Shape;
    var q := s.lists[LEVELS + i];
    if k == 0 {
      assert q[0..] == q && s.lists[level] + q[..0] == s.lists[level];
    } else {
      var d := TakeOne(s, i, level);
      TakeOneIs(s, i, level);
      TakeIs(d, i, level, k - 1);
      assert q[1..][k - 1..] == q[k..] && s.lists[level] + [q[0]] + q[1..][..k - 1] == s.lists[level] + q[..k];
    }
  }

  lemma TakeShare(s: Queues, i: nat, j: nat, a: seq<nat>)
    requires Shape(s) && i < LEVELS - 1 && 0 < j <= i + 2
    requires Cut(|a|, i, j) <= |a| && s.lists[LEVELS + i] == a[Cut(|a|, i, j)..]
    ensures Cut(|a|, i, j - 1) <= |a|
    ensures Take(s, i, j - 1, Quota(|a|, i, j - 1)).lists
         == s.lists[LEVELS + i := a[Cut(|a|, i, j - 1)..]][j - 1 := s.lists[j - 1] + Share(a, i, j - 1)]
  {
    hide Cut, Quota, Take;
    var n, lo, hi := |a|, Cut(|a|, i, j), Cut(|a|, i, j - 1);
    CutStep(n, i, j);
    TakeIs(s, i, j - 1, Quota(n, i, j - 1));
    assert a[lo..][hi - lo..] == a[hi..] && a[lo..][..hi - lo] == a[lo..hi] == Share(a, i, j - 1);
  }

  lemma {:induction false} DealIs(s: Queues, i: nat, j: nat, a: seq<nat>)
    requires Shape(s) && i < LEVELS - 1 && 0 < j <= i + 2
    requires Cut(|a|, i, j) <= |a| && s.lists[LEVELS + i] == a[Cut(|a|, i, j)..]
    ensures var r := Deal(s, i, j, |a|);
      && r.lists[LEVELS + i] == []
      && (forall l :: 0 <= l < LEVELS ==> r.lists[l] == if l < j then s.lists[l] + Share(a, i, l) else s.lists[l])
      && (forall l :: LEVELS <= l < LISTS && l != LEVELS + i ==> r.lists[l] == s.lists[l])
    decreases j
  {
    hide Cut, Quota, Take, Share;
    TakeShare(s, i, j, a);
    var d := Take(s, i, j - 1, Quota(|a|, i, j - 1));
    if j > 1 {
      DealIs(d, i, j - 1, a);
    } else {
      CutEnd(|a|, i);
    }
  }

  lemma DealWhole(s: Queues, i: nat)
    requires Shape(s) && i < LEVELS - 1
    ensures var a, r := s.lists[LEVELS + i], Deal(s, i, i + 2, |s.lists[LEVELS + i]|);
      && r.lists[LEVELS + i] == []
      && (forall l :: 0 <= l < LEVELS ==> r.lists[l] == s.lists[l] + Share(a, i, l))
      && (forall l :: LEVELS <= l < LISTS && l != LEVELS + i ==> r.lists[l] == s.lists[l])
  {
    hide Cut, Deal;
    var a := s.lists[LEVELS + i];
    CutEnd(|a|, i);
    DealIs(s, i, i + 2, a);
  }

  lemma CutEnd(n: nat, i: nat)
    ensures Cut(n, i, 0) == n && Cut(n, i, i + 2) == 0
  {
  }

  /** The shares of levels `j - 1` down to 0, in the order they are dealt. */
  ghost function Shares(a: seq<nat>, i: nat, j: nat): seq<nat>
  {
    if j == 0 then [] else Share(a, i, j - 1) + Shares(a, i, j - 1)
  }

  lemma {:induction false} SharesFrom(a: seq<nat>, i: nat, j: nat)
    requires j <= i + 2
    ensures Cut(|a|, i, j) <= |a| && Shares(a, i, j) == a[Cut(|a|, i, j)..]
  {
    hide Cut;
    CutEnd(|a|, i);
    if j == 0 {
    } else {
      CutStep(|a|, i, j);
      SharesFrom(a, i, j - 1);
      var c, c' := Cut(|a|, i, j), Cut(|a|, i, j - 1);
      assert Share(a, i, j - 1) == a[c..c'];
      assert a[c..] == a[c..c'] + a[c'..];
    }
  }

  /** Every share has its quota, and the shares, highest level first, make up the whole queue. */
  lemma SharesPartition(a: seq<nat>, i: nat, level: nat)
    requires level <= i + 1
    ensures Shares(a, i, i + 2) == a
    ensures |Share(a, i, level)| == if level > 0 then |a| / (i + 2) else |a| - (i + 1) * (|a| / (i + 2))
  {
    hide Cut, Shares;
    CutEnd(|a|, i);
    SharesFrom(a, i, i + 2);
    CutStep(|a|, i, level + 1);
  }

  ghost function Sorted(s: Queues, i: nat): (r: seq<nat>)
    requires Shape(s) && i < LEVELS - 1
    ensures Known(r, s.info) && |r| == |s.lists[i + 1]|
  {
    ByAge([], s.lists[i + 1], s.info)
  }

  /** After the first phase the upper run queues are empty and each promotion queue is sorted. */
  lemma {:induction false} DrainAllIs(s: Queues, i: nat, now: int)
    requires Tidy(s) && i <= LEVELS - 1
    requires forall l :: LEVELS + i <= l < JOIN ==> s.lists[l] == []
    ensures var r := DrainAll(s, i, now);
      && |r.lists| == LISTS && r.lists[0] == s.lists[0] && r.lists[JOIN] == s.lists[JOIN]
      && (forall l :: 1 <= l < LEVELS ==> r.lists[l] == if l <= i then s.lists[l] else [])
      && (forall l :: LEVELS <= l < LEVELS + i ==> r.lists[l] == s.lists[l])
      && (forall k :: i <= k < LEVELS - 1 ==> r.lists[LEVELS + k] == Sorted(s, k))
    decreases LEVELS - 1 - i
  {
    hide Tidy, Drain, SameNodes, ByAge;
    if i == LEVELS - 1 {
    } else {
      var d := Drain(s, i, now);
      DrainKeeps(s, i, now);
      DrainIs(s, i, now);
      SameNodesAges(s, d);
      DrainAllIs(d, i + 1, now);
      forall k | i < k < LEVELS - 1 ensures Sorted(d, k) == Sorted(s, k) {
        ByAgeSame([], s.lists[k + 1], s.info, d.info);
      }
    }
  }

  lemma SameNodesAges(s: Queues, r: Queues)
    requires |s.lists| == |r.lists| == LISTS && SameNodes(s, r)
    ensures SameAges(s.info, r.info)
  {
  }

  /** The shares that the second phase, from promotion queue `i` on, adds to run queue `l`. */
  ghost function Gains(s: Queues, i: nat, l: nat): seq<nat>
    requires Shape(s) && i <= LEVELS - 1
    decreases LEVELS - 1 - i
  {
    if i == LEVELS - 1 then [] else Share(s.lists[LEVELS + i], i, l) + Gains(s, i + 1, l)
  }

  lemma {:induction false} GainsSame(s: Queues, r: Queues, i: nat, l: nat)
    requires Shape(s) && Shape(r) && i <= LEVELS - 1
    requires forall k :: LEVELS + i <= k < JOIN ==> r.lists[k] == s.lists[k]
    ensures Gains(r, i, l) == Gains(s, i, l)
    decreases LEVELS - 1 - i
  {
    if i == LEVELS - 1 {
    } else {
      GainsSame(s, r, i + 1, l);
    }
  }

  lemma {:induction false} DealAllIs(s: Queues, i: nat, counts: seq<nat>)
    requires Shape(s) && i <= LEVELS - 1 == |counts|
    requires forall k :: i <= k < LEVELS - 1 ==> counts[k] == |s.lists[LEVELS + k]|
    ensures var r := DealAll(s, i, counts);
      && (forall l :: 0 <= l < LEVELS ==> r.lists[l] == s.lists[l] + Gains(s, i, l))
      && (forall l :: LEVELS <= l < LISTS ==> r.lists[l] == if LEVELS + i <= l < JOIN then [] else s.lists[l])
    decreases LEVELS - 1 - i
  {
    hide Deal, Share;
    if i == LEVELS - 1 {
    } else {
      DealWhole(s, i);
      var d, i' := Deal(s, i, i + 2, counts[i]), i + 1;
      DealAllIs(d, i', counts);
      forall l: nat | l < LEVELS ensures Gains(d, i', l) == Gains(s, i', l) { GainsSame(s, d, i', l); }
    }
  }

  /** What run queue `l` gains in a maintenance of `s`. */
  ghost function AllShares(s: Queues, l: nat): seq<nat>
    requires Shape(s)
  {
    Share(Sorted(s, 0), 0, l) + Share(Sorted(s, 1), 1, l) + Share(Sorted(s, 2), 2, l) + Share(Sorted(s, 3), 3, l)
  }

  lemma GainsAll(s: Queues, d: Queues, l: nat)
    requires Shape(s) && Shape(d) && forall k :: 0 <= k < LEVELS - 1 ==> d.lists[LEVELS + k] == Sorted(s, k)
    ensures Gains(d, 0, l) == AllShares(s, l)
  {
    hide Share, Sorted;
    assert d.lists[LEVELS + 0] == Sorted(s, 0) && d.lists[LEVELS + 1] == Sorted(s, 1);
    assert d.lists[LEVELS + 2] == Sorted(s, 2) && d.lists[LEVELS + 3] == Sorted(s, 3);
    assert Gains(d, 4, l) == [];
    assert Gains(d, 3, l) == Share(Sorted(s, 3), 3, l);
    assert Gains(d, 2, l) == Share(Sorted(s, 2), 2, l) + Gains(d, 3, l);
    assert Gains(d, 1, l) == Share(Sorted(s, 1), 1, l) + Gains(d, 2, l);
  }

  /** Where every thread is after maintenance: run queue 0 keeps its threads in front and gains the
      rests; run queue `l` holds its share of each level from `l` up; the promotion queues are empty. */
  lemma MaintainIs(s: Queues, now: int)
    requires Tidy(s) && forall l :: LEVELS <= l < JOIN ==> s.lists[l] == []
    ensures var r := Maintain(s, now);
      && r.lists[0] == s.lists[0] + AllShares(s, 0)
      && (forall l :: 1 <= l < LEVELS ==> r.lists[l] == AllShares(s, l))
      && (forall l :: LEVELS <= l < JOIN ==> r.lists[l] == [])
      && r.lists[JOIN] == s.lists[JOIN]
  {
    hide DrainAll, DealAll, Share, Tidy, Gains, AllShares, ByAge;
    DrainAllIs(s, 0, now);
    var d := DrainAll(s, 0, now);
    assert d.lists[5] == Sorted(s, 0) && d.lists[6] == Sorted(s, 1) && d.lists[7] == Sorted(s, 2)
      && d.lists[8] == Sorted(s, 3) by {
      assert d.lists[LEVELS + 0] == Sorted(s, 0) && d.lists[LEVELS + 1] == Sorted(s, 1);
      assert d.lists[LEVELS + 2] == Sorted(s, 2) && d.lists[LEVELS + 3] == Sorted(s, 3);
    }
    DealAllIs(d, 0, Counts(s));
    forall l: nat | l < LEVELS ensures Gains(d, 0, l) == AllShares(s, l) { GainsAll(s, d, l); }
  }

  /** Maintenance never lowers a thread's standing. */
  lemma NeverDemoted(s: Queues, now: int, i: nat, k: nat)
    requires Tidy(s) && (forall l :: LEVELS <= l < JOIN ==> s.lists[l] == [])
    requires i < LEVELS && k < |s.lists[i]|
    ensures exists l :: 0 <= l <= i && s.lists[i][k] in Maintain(s, now).lists[l]
  {
    hide Tidy, Maintain, Share, AllShares, Shape, Sorted, Shares;
    var n, r := s.lists[i][k], Maintain(s, now);
    MaintainIs(s, now);
    if i == 0 {
      assert n in r.lists[0];
    } else {
      var a := Sorted(s, i - 1);
      SortedHas(s, i - 1, k);
      SharesPartition(a, i - 1, 0);
      var l := InSomeShare(a, i - 1, i + 1, n);
      ShareGained(s, i - 1, l, n);
      assert n in r.lists[l];
    }
  }

  lemma SortedHas(s: Queues, i: nat, k: nat)
    requires Shape(s) && i < LEVELS - 1 && k < |s.lists[i + 1]|
    ensures s.lists[i + 1][k] in Sorted(s, i)
  {
    hide ByAge;
    ByAgeSorts([], s.lists[i + 1], s.info);
    assert s.lists[i + 1][k] in multiset(s.lists[i + 1]);
    assert s.lists[i + 1][k] in multiset(Sorted(s, i));
  }

  lemma ShareGained(s: Queues, i: nat, l: nat, n: nat)
    requires Shape(s) && i < LEVELS - 1 && n in Share(Sorted(s, i), i, l)
    ensures n in AllShares(s, l)
  {
    hide Share, Sorted;
    var a, b, c, d := Share(Sorted(s, 0), 0, l), Share(Sorted(s, 1), 1, l), Share(Sorted(s, 2), 2, l),
      Share(Sorted(s, 3), 3, l);
    assert n in a || n in b || n in c || n in d;
    assert n in a + b + c + d;
  }

  lemma {:induction false} InSomeShare(a: seq<nat>, i: nat, j: nat, n: nat) returns (l: nat)
    requires n in Shares(a, i, j)
    ensures l < j && n in Share(a, i, l)
  {
    if n in Share(a, i, j - 1) { l := j - 1; } else { l := InSomeShare(a, i, j - 1, n); }
  }

  // ---- The order in which maintenance deals ---------------------------------------------------

  /** The level to which position `x` of the `n` sorted threads of level `i + 1` goes, searched from
      level `l` down. */
  ghost function LevelFrom(n: nat, i: nat, x: nat, l: nat): (r: nat)
    requires x < n && l <= i + 1 && Cut(n, i, l + 1) <= x
    ensures r <= l && Cut(n, i, r + 1) <= x < Cut(n, i, r)
  {
    if l == 0 || x < Cut(n, i, l) then l else LevelFrom(n, i, x, l - 1)
  }

  ghost function LevelOf(n: nat, i: nat, x: nat): (r: nat)
    requires x < n
    ensures r <= i + 1 && Cut(n, i, r + 1) <= x < Cut(n, i, r)
  {
    CutEnd(n, i);
    LevelFrom(n, i, x, i + 1)
  }

  lemma {:induction false} CutMono(n: nat, i: nat, j: nat, k: nat)
    requires j <= k <= i + 2
    ensures Cut(n, i, k) <= Cut(n, i, j)
    decreases k
  {
    hide Cut;
    if j == k {
    } else {
      CutStep(n, i, k);
      CutMono(n, i, j, k - 1);
    }
  }

  /** Later positions go to the same or a better level. */
  lemma LevelsFall(n: nat, i: nat, x: nat, y: nat)
    requires x <= y < n
    ensures LevelOf(n, i, y) <= LevelOf(n, i, x)
  {
    hide Cut, LevelOf;
    var l, l' := LevelOf(n, i, x), LevelOf(n, i, y);
    if l < l' { CutMono(n, i, l + 1, l'); }
  }

  /** All threads of a level go to level 0 if it holds fewer than `i + 2`; else the oldest stays. */
  lemma LevelsOfEnds(n: nat, i: nat)
    requires n > 0
    ensures LevelOf(n, i, n - 1) == 0
    ensures LevelOf(n, i, 0) == if n < i + 2 then 0 else i + 1
  {
    var m := Chunk(n, i);
    ChunksFit(n, i);
    if n < i + 2 {
      assert m == 0;
    } else {
      assert m >= 1 && Cut(n, i, i + 1) == m;
    }
    CutsBelow(n, i);
  }

  lemma CutsBelow(n: nat, i: nat)
    requires n > 0
    ensures forall j: nat :: 0 < j <= i + 2 ==> Cut(n, i, j) < n
  {
    hide Cut;
    forall j: nat | 0 < j <= i + 2 ensures Cut(n, i, j) < n {
      CutMono(n, i, 1, j);
      FirstCut(n, i);
    }
  }

  lemma FirstCut(n: nat, i: nat)
    requires n > 0
    ensures Cut(n, i, 1) < n
  {
    ChunksFit(n, i);
  }

  /** Where maintenance puts position `x` of the sorted threads of level `i + 1`. */
  lemma LandsAt(s: Queues, now: int, i: nat, x: nat, l: nat)
    requires Tidy(s) && forall l :: LEVELS <= l < JOIN ==> s.lists[l] == []
    requires i < LEVELS - 1 && x < |s.lists[i + 1]| && l < LEVELS
    ensures Sorted(s, i)[x] in Maintain(s, now).lists[l] <==> l == LevelOf(|s.lists[i + 1]|, i, x)
  {
    hide Tidy, Maintain, AllShares, Shape, Sorted, Cut, LevelOf, Count;
    var a, r, k := Sorted(s, i), Maintain(s, now), LevelOf(|s.lists[i + 1]|, i, x);
    MaintainIs(s, now);
    CutStep(|a|, i, k + 1);
    assert Share(a, i, k) == a[Cut(|a|, i, k + 1)..Cut(|a|, i, k)];
    assert a[x] == Share(a, i, k)[x - Cut(|a|, i, k + 1)];
    ShareGained(s, i, k, a[x]);
    assert a[x] in r.lists[k];
    MaintainKeeps(s, now);
    OnOneList(r, k, l, a[x]);
  }

  lemma OnOneList(s: Queues, i: nat, j: nat, n: nat)
    requires Tidy(s) && i < LEVELS && j < LEVELS && n in s.lists[i]
    ensures n in s.lists[j] <==> i == j
  {
    hide Count, Leveled, Calm;
    SimpleApart(s.lists, i, j);
  }

  /** Of two threads of one level, the one that has run longer never ends on a better level. */
  lemma OldestLast(s: Queues, now: int, i: nat, x: nat, y: nat, l: nat, l': nat)
    requires Tidy(s) && forall l :: LEVELS <= l < JOIN ==> s.lists[l] == []
    requires i < LEVELS - 1 && x <= y < |s.lists[i + 1]| && l < LEVELS && l' < LEVELS
    requires Sorted(s, i)[x] in Maintain(s, now).lists[l] && Sorted(s, i)[y] in Maintain(s, now).lists[l']
    ensures l' <= l && s.info[Sorted(s, i)[x]].created <= s.info[Sorted(s, i)[y]].created
  {
    hide Tidy, Maintain, ByAge, LevelOf;
    LandsAt(s, now, i, x, l);
    LandsAt(s, now, i, y, l');
    LevelsFall(|s.lists[i + 1]|, i, x, y);
    ByAgeSorts([], s.lists[i + 1], s.info);
  }

  /** Of the threads of level `i + 1`, none fares worse than a younger one: the order of the comment above
      `maintenance`. */
  ghost predicate OldestBest(s: Queues, r: Queues, i: nat)
    requires Shape(s) && Shape(r) && i < LEVELS - 1
  {
    var a := Sorted(s, i);
    forall p, q, l: nat, l': nat | l < LEVELS && l' < LEVELS && p in r.lists[l] && q in r.lists[l'] ::
      p in a && q in a && s.info[p].created < s.info[q].created ==> l <= l'
  }

  /** The older ones fare at least as well as the younger ones if and only if the level holds too few
      threads to be parted, or they are all equally old. */
  lemma OldestBestIff(s: Queues, now: int, i: nat)
    requires Tidy(s) && forall l :: LEVELS <= l < JOIN ==> s.lists[l] == []
    requires i < LEVELS - 1
    ensures var a := Sorted(s, i);
      OldestBest(s, Maintain(s, now), i) <==>
        |a| < i + 2 || s.info[a[0]].created == s.info[a[|a| - 1]].created
  {
    hide Tidy, Maintain, Sorted;
    var a, r := Sorted(s, i), Maintain(s, now);
    SortedAges(s, i);
    if |a| >= i + 2 {
      Parted(s, now, i);
    } else {
      forall p, l: nat | p in a && l < LEVELS && p in r.lists[l] ensures l == 0 { FewGoUp(s, now, i, p, l); }
    }
  }

  lemma SortedAges(s: Queues, i: nat)
    requires Shape(s) && i < LEVELS - 1
    ensures var a := Sorted(s, i);
      forall x, y :: 0 <= x <= y < |a| ==> s.info[a[x]].created <= s.info[a[y]].created
  {
    hide ByAge;
    ByAgeSorts([], s.lists[i + 1], s.info);
  }

  lemma Parted(s: Queues, now: int, i: nat)
    requires Tidy(s) && forall l :: LEVELS <= l < JOIN ==> s.lists[l] == []
    requires i < LEVELS - 1 && |s.lists[i + 1]| >= i + 2
    ensures var a, r := Sorted(s, i), Maintain(s, now);
      a[0] in r.lists[i + 1] && a[|a| - 1] in r.lists[0]
  {
    hide Tidy, Maintain, Sorted, LevelOf;
    LevelsOfEnds(|s.lists[i + 1]|, i);
    LandsAt(s, now, i, 0, i + 1);
    LandsAt(s, now, i, |s.lists[i + 1]| - 1, 0);
  }

  lemma FewGoUp(s: Queues, now: int, i: nat, p: nat, l: nat)
    requires Tidy(s) && forall l :: LEVELS <= l < JOIN ==> s.lists[l] == []
    requires i < LEVELS - 1 && |s.lists[i + 1]| < i + 2 && p in Sorted(s, i)
    requires l < LEVELS && p in Maintain(s, now).lists[l]
    ensures l == 0
  {
    hide Tidy, Maintain, Sorted, LevelOf;
    var a, n := Sorted(s, i), |s.lists[i + 1]|;
    var x: nat :| x < n && a[x] == p;
    LandsAt(s, now, i, x, l);
    LevelsOfEnds(n, i);
    LevelsFall(n, i, 0, x);
  }

  lemma {:induction false} NoneListed(lists: seq<seq<nat>>, n: nat)
    requires forall l :: 0 <= l < |lists| ==> lists[l] == []
    ensures Count(lists, n) == 0
  {
    if lists == [] {
    } else {
      NoneListed(lists[1..], n);
    }
  }
}
