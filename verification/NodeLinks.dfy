/** Intrusive lists: how the scheduler's queues and its join list are laid out in the nodes' next
    links. A node is named by its thread id; 0 is NULL. */
module NodeLinks {
  import opened RunQueues

  datatype Queue = Queue(head: nat, rear: nat)

  const QUEUES: nat := 9

  ghost function First(s: seq<nat>): nat {
    if s == [] then 0 else s[0]
  }

  ghost function Last(s: seq<nat>): nat {
    if s == [] then 0 else s[|s| - 1]
  }

  /** Following `next` from `head` visits exactly the nodes `s`, in order, and ends in NULL. */
  ghost predicate Chain(next: map<nat, nat>, head: nat, s: seq<nat>)
  {
    && head == First(s)
    && (forall k :: 0 <= k < |s| ==> s[k] in next && s[k] != 0)
    && (forall k, j :: 0 <= k && j == k + 1 && j < |s| ==> next[s[k]] == s[j])
    && (forall k :: 0 <= k && k == |s| - 1 ==> next[s[k]] == 0)
  }

  ghost predicate QueueRep(next: map<nat, nat>, q: Queue, s: seq<nat>)
  {
    Chain(next, q.head, s) && q.rear == Last(s)
  }

  /** The nine queues and the join list, pairwise disjoint, are linked as listed. */
  ghost predicate Rep(next: map<nat, nat>, queues: seq<Queue>, joinHead: nat, lists: seq<seq<nat>>)
    ensures Rep(next, queues, joinHead, lists) ==> |queues| == QUEUES && |lists| == LISTS
  {
    && |queues| == QUEUES && |lists| == LISTS && Simple(lists)
    && (forall i :: 0 <= i < QUEUES ==> QueueRep(next, queues[i], lists[i]))
    && Chain(next, joinHead, lists[JOIN])
  }

  /** The links of the nodes in `s` are the same in both. */
  ghost predicate SameLinks(next: map<nat, nat>, next': map<nat, nat>, s: seq<nat>)
  {
    forall k :: 0 <= k < |s| && s[k] in next ==> s[k] in next' && next'[s[k]] == next[s[k]]
  }

  lemma ChainFrame(next: map<nat, nat>, next': map<nat, nat>, head: nat, s: seq<nat>)
    requires Chain(next, head, s) && SameLinks(next, next', s)
    ensures Chain(next', head, s)
  {
  }

  /** Relinking list `i` alone: what the new links say of it, and that they keep all the others. */
  lemma RepUpdate(next: map<nat, nat>, next': map<nat, nat>, queues: seq<Queue>, joinHead: nat, lists: seq<seq<nat>>,
                  i: nat, q: Queue, s: seq<nat>)
    requires Rep(next, queues, joinHead, lists) && i < QUEUES && QueueRep(next', q, s) && Simple(lists[i := s])
    requires forall j :: 0 <= j < LISTS && j != i ==> SameLinks(next, next', lists[j])
    ensures Rep(next', queues[i := q], joinHead, lists[i := s])
  {
  }

  lemma RepUpdateJoin(next: map<nat, nat>, next': map<nat, nat>, queues: seq<Queue>, joinHead: nat,
    lists: seq<seq<nat>>,
                      head: nat, s: seq<nat>)
    requires Rep(next, queues, joinHead, lists) && Chain(next', head, s) && Simple(lists[JOIN := s])
    requires forall j :: 0 <= j < QUEUES ==> SameLinks(next, next', lists[j])
    ensures Rep(next', queues, head, lists[JOIN := s])
  {
  }

  // ---- The four ways a chain is relinked ---------------------------------------------------

  lemma ChainAppend(next: map<nat, nat>, q: Queue, s: seq<nat>, n: nat, next': map<nat, nat>)
    requires QueueRep(next, q, s) && n != 0 && n !in s
    requires forall a, b :: 0 <= a < b < |s| ==> s[a] != s[b]
    requires next' == if s == [] then next[n := 0] else next[q.rear := n][n := 0]
    ensures QueueRep(next', Queue(First(s + [n]), n), s + [n])
  {
  }

  lemma ChainPop(next: map<nat, nat>, head: nat, s: seq<nat>)
    requires Chain(next, head, s) && s != [] && forall a, b :: 0 <= a < b < |s| ==> s[a] != s[b]
    ensures head in next && Chain(next[head := 0], next[head], s[1..])
  {
  }

  lemma ChainInsert(next: map<nat, nat>, q: Queue, s: seq<nat>, p: nat, n: nat, next': map<nat, nat>)
    requires QueueRep(next, q, s) && p < |s| && n != 0 && n !in s
    requires forall a, b :: 0 <= a < b < |s| ==> s[a] != s[b]
    requires next' == if p == 0 then next[n := s[0]] else next[n := s[p]][s[p - 1] := n]
    ensures QueueRep(next', Queue(if p == 0 then n else q.head, q.rear), InsertAt(s, p, n))
  {
  }

  lemma ChainPush(next: map<nat, nat>, head: nat, s: seq<nat>, n: nat)
    requires Chain(next, head, s) && n != 0 && n !in s
    ensures Chain(next[n := head], n, [n] + s)
  {
  }

  lemma ChainRemove(next: map<nat, nat>, head: nat, s: seq<nat>, k: nat, next': map<nat, nat>)
    requires Chain(next, head, s) && k < |s| && forall a, b :: 0 <= a < b < |s| ==> s[a] != s[b]
    requires next' == if k == 0 then next[s[0] := 0] else next[s[k - 1] := next[s[k]]][s[k] := 0]
    ensures Chain(next', if k == 0 then next[s[0]] else head, s[..k] + s[k + 1..])
  {
  }
}
