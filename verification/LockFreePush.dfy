/**
 * The lock-free push loop, src/apps/sem23/task22_3.c:15-24, run by any number of threads.
 *
 * One thread per node; a step is one atomic access to memory: the load of `head->next`,
 * the store to `node->next`, or the weak compare-and-swap.  A weak compare-and-swap may
 * fail although the values agree; such failures are counted apart from genuine ones.
 */
module LockFreePush {
  import opened Counting

  datatype Ref = Null | Node(id: nat)

  datatype Pc = AtLoad | AtStore(cur: Ref) | AtCas(cur: Ref) | Done {
    /** Between the load and the compare-and-swap. */
    predicate MidAttempt() {
      AtStore? || AtCas?
    }
  }

  /** Thread t pushes `nodes[t]`; `original` is the list found behind the head. */
  datatype Config = Config(nodes: seq<nat>, original: seq<nat>)

  /**
   * `head` is `head->next`, `next` the memory of all other `next` fields.  History: `order`
   * lists the threads by successful compare-and-swap, `failures` and `spurious` count failures.
   */
  datatype State = State(
    head: Ref, next: map<nat, Ref>, pcs: seq<Pc>,
    order: seq<nat>, failures: seq<nat>, spurious: nat)

  datatype Label = Load(t: nat) | Store(t: nat) | CasOk(t: nat) | CasLost(t: nat) | CasSpurious(t: nat)

  predicate Distinct(s: seq<nat>) {
    forall i, j :: 0 <= i < j < |s| ==> s[i] != s[j]
  }

  predicate InRange(s: seq<nat>, n: nat) {
    forall i :: 0 <= i < |s| ==> s[i] < n
  }

  predicate Returned(s: State, t: nat) {
    t < |s.pcs| && s.pcs[t].Done?
  }

  /** Thread t is between its load, which saw `cur`, and the matching compare-and-swap. */
  predicate Attempts(s: State, t: nat, cur: Ref) {
    t < |s.pcs| && s.pcs[t].MidAttempt() && s.pcs[t].cur == cur
  }

  /** Following `next` from `from` visits exactly `list` and then ends. */
  predicate IsChain(next: map<nat, Ref>, from: Ref, list: seq<nat>)
    decreases |list|
  {
    if list == [] then from == Null
    else from == Node(list[0]) && list[0] in next && IsChain(next, next[list[0]], list[1..])
  }

  predicate Init(c: Config, s: State) {
    && Distinct(c.nodes + c.original)
    && s.pcs == seq(|c.nodes|, _ => AtLoad)
    && s.failures == seq(|c.nodes|, _ => 0)
    && s.order == [] && s.spurious == 0
    && IsChain(s.next, s.head, c.original)
  }

  predicate Step(c: Config, s: State, l: Label, s': State) {
    && l.t < |s.pcs| == |s.failures| == |c.nodes|
    && var t, pc := l.t, s.pcs[l.t];
    match l
    case Load(_) =>
      pc.AtLoad? && s' == s.(pcs := s.pcs[t := AtStore(s.head)])
    case Store(_) =>
      pc.AtStore? && s' == s.(next := s.next[c.nodes[t] := pc.cur], pcs := s.pcs[t := AtCas(pc.cur)])
    case CasOk(_) =>
      pc.AtCas? && s.head == pc.cur &&
      s' == s.(head := Node(c.nodes[t]), pcs := s.pcs[t := Done], order := s.order + [t])
    case CasLost(_) =>
      pc.AtCas? && s.head != pc.cur &&
      s' == s.(pcs := s.pcs[t := AtLoad], failures := s.failures[t := s.failures[t] + 1])
    case CasSpurious(_) =>
      pc.AtCas? && s.head == pc.cur &&
      s' == s.(pcs := s.pcs[t := AtLoad], spurious := s.spurious + 1)
  }

  /** A finite run: any interleaving of atomic steps from an initial state. */
  ghost predicate IsRun(c: Config, run: seq<State>, labels: seq<Label>) {
    && |run| == |labels| + 1
    && Init(c, run[0])
    && forall i :: 0 <= i < |labels| ==> Step(c, run[i], labels[i], run[i + 1])
  }

  // ----- the list in memory

  /** Memory holds at most one list behind a reference. */
  lemma {:induction false} ChainIsUnique(next: map<nat, Ref>, from: Ref, a: seq<nat>, b: seq<nat>)
    requires IsChain(next, from, a) && IsChain(next, from, b)
    ensures a == b
    decreases |a|
  {
    if a != [] {
      ChainIsUnique(next, next[a[0]], a[1..], b[1..]);
      assert a == [a[0]] + a[1..] && b == [b[0]] + b[1..];
    }
  }

  /** A store to a node outside the list leaves the list alone. */
  lemma {:induction false} ChainFrame(next: map<nat, Ref>, from: Ref, list: seq<nat>, id: nat, r: Ref)
    requires IsChain(next, from, list) && id !in list
    ensures IsChain(next[id := r], from, list)
    decreases |list|
  {
    if list != [] {
      ChainFrame(next, next[list[0]], list[1..], id, r);
    }
  }

  /** The abstract stack: pushed nodes, latest first, on top of the original list. */
  function Stack(c: Config, order: seq<nat>): seq<nat>
    requires InRange(order, |c.nodes|)
  {
    if order == [] then c.original
    else [c.nodes[order[|order| - 1]]] + Stack(c, order[..|order| - 1])
  }

  lemma {:induction false} StackMembers(c: Config, order: seq<nat>, t: nat)
    requires InRange(order, |c.nodes|)
    requires t < |c.nodes| && t !in order && Distinct(c.nodes + c.original)
    ensures c.nodes[t] !in Stack(c, order)
  {
    var all := c.nodes + c.original;
    assert all[t] == c.nodes[t];
    if order == [] {
      assert forall i :: 0 <= i < |c.original| ==> all[|c.nodes| + i] == c.original[i];
    } else {
      var last := order[|order| - 1];
      StackMembers(c, order[..|order| - 1], t);
      assert last in order && all[last] == c.nodes[last];
    }
  }

  lemma {:induction false} StackDistinct(c: Config, order: seq<nat>)
    requires InRange(order, |c.nodes|)
    requires Distinct(order) && Distinct(c.nodes + c.original)
    ensures Distinct(Stack(c, order))
  {
    if order == [] {
      var all := c.nodes + c.original;
      assert forall i :: 0 <= i < |c.original| ==> all[|c.nodes| + i] == c.original[i];
    } else {
      var front := order[..|order| - 1];
      StackDistinct(c, front);
      StackMembers(c, front, order[|order| - 1]);
    }
  }

  // ----- invariant

  /** Thread t attempts against a head that has moved since its load. */
  predicate Stale(s: State, t: nat) {
    t < |s.pcs| && s.pcs[t].MidAttempt() && s.pcs[t].cur != s.head
  }

  ghost predicate ListInv(c: Config, s: State) {
    && |s.pcs| == |s.failures| == |c.nodes|
    && Distinct(c.nodes + c.original)
    && Distinct(s.order)
    && InRange(s.order, |s.pcs|)
    && (forall t :: 0 <= t < |s.pcs| ==> (s.pcs[t].Done? <==> t in s.order))
    && (forall t :: 0 <= t < |s.pcs| && s.pcs[t].AtCas? ==>
          c.nodes[t] in s.next && s.next[c.nodes[t]] == s.pcs[t].cur)
    && IsChain(s.next, s.head, Stack(c, s.order))
  }

  /** What thread t has lost is paid for by the successes so far. */
  predicate Paid(s: State, t: nat)
    requires t < |s.pcs| == |s.failures|
  {
    if s.pcs[t].Done? then exists p :: 0 <= p < |s.order| && s.order[p] == t && s.failures[t] <= p
    else s.failures[t] + (if Stale(s, t) then 1 else 0) <= |s.order|
  }

  ghost predicate Inv(c: Config, s: State) {
    && ListInv(c, s)
    && forall t :: 0 <= t < |s.pcs| ==> Paid(s, t)
  }

  lemma InitInv(c: Config, s: State)
    requires Init(c, s)
    ensures Inv(c, s)
  {
  }

  lemma StoreListInv(c: Config, s: State, t: nat, s': State)
    requires ListInv(c, s) && Step(c, s, Store(t), s')
    ensures ListInv(c, s')
  {
    StackMembers(c, s.order, t);
    ChainFrame(s.next, s.head, Stack(c, s.order), c.nodes[t], s.pcs[t].cur);
    forall u | 0 <= u < |s'.pcs| && s'.pcs[u].AtCas?
      ensures c.nodes[u] in s'.next && s'.next[c.nodes[u]] == s'.pcs[u].cur
    {
      var all := c.nodes + c.original;
      assert all[u] == c.nodes[u] && all[t] == c.nodes[t];
    }
  }

  lemma PushedStack(c: Config, order: seq<nat>, t: nat)
    requires InRange(order, |c.nodes|) && t < |c.nodes|
    ensures InRange(order + [t], |c.nodes|) && Stack(c, order + [t]) == [c.nodes[t]] + Stack(c, order)
  {
    assert (order + [t])[..|order|] == order;
  }

  /** A node that refers to the head of a list is the head of a longer one. */
  lemma PushedChain(next: map<nat, Ref>, from: Ref, list: seq<nat>, id: nat)
    requires IsChain(next, from, list) && id in next && next[id] == from
    ensures IsChain(next, Node(id), [id] + list)
  {
    assert ([id] + list)[1..] == list;
  }

  lemma PushListInv(c: Config, s: State, t: nat, s': State)
    requires ListInv(c, s) && Step(c, s, CasOk(t), s')
    ensures ListInv(c, s')
  {
    assert t !in s.order;
    PushedStack(c, s.order, t);
    PushedChain(s.next, s.head, Stack(c, s.order), c.nodes[t]);
  }

  lemma StepListInv(c: Config, s: State, l: Label, s': State)
    requires ListInv(c, s) && Step(c, s, l, s')
    ensures ListInv(c, s')
  {
    match l
    case Store(t) => StoreListInv(c, s, t, s');
    case CasOk(t) => PushListInv(c, s, t, s');
    case _ =>
  }

  lemma StepPaid(c: Config, s: State, l: Label, s': State, u: nat)
    requires Inv(c, s) && Step(c, s, l, s') && u < |s.pcs|
    ensures Paid(s', u)
  {
    assert Paid(s, u);
    if s'.pcs[u].Done? && u != l.t {
      assert s.pcs[u].Done?;
      var p :| 0 <= p < |s.order| && s.order[p] == u && s.failures[u] <= p;
      assert s'.order[p] == u;
    } else if s'.pcs[u].Done? {
      assert s'.order[|s.order|] == u;
    }
  }

  lemma StepInv(c: Config, s: State, l: Label, s': State)
    requires Inv(c, s) && Step(c, s, l, s')
    ensures Inv(c, s')
  {
    StepListInv(c, s, l, s');
    forall u | 0 <= u < |s'.pcs| ensures Paid(s', u) {
      StepPaid(c, s, l, s', u);
    }
  }

  lemma {:induction false} RunInv(c: Config, run: seq<State>, labels: seq<Label>, i: nat)
    requires IsRun(c, run, labels) && i < |run|
    ensures Inv(c, run[i])
  {
    if i == 0 {
      InitInv(c, run[0]);
    } else {
      RunInv(c, run, labels, i - 1);
      StepInv(c, run[i - 1], labels[i - 1], run[i]);
    }
  }

  // ----- linearizability

  /**
   * In every reachable state the list behind the head is finite, free of repetitions and
   * exactly the successfully pushed nodes, latest first, before the original list.
   */
  lemma ReachableList(c: Config, run: seq<State>, labels: seq<Label>, i: nat, list: seq<nat>)
    requires IsRun(c, run, labels) && i < |run|
    ensures InRange(run[i].order, |c.nodes|)
    ensures IsChain(run[i].next, run[i].head, list) <==> list == Stack(c, run[i].order)
    ensures Distinct(Stack(c, run[i].order))
  {
    RunInv(c, run, labels, i);
    StackDistinct(c, run[i].order);
    if IsChain(run[i].next, run[i].head, list) {
      ChainIsUnique(run[i].next, run[i].head, list, Stack(c, run[i].order));
    }
  }

  /**
   * Every step is an atomic stack operation: a successful compare-and-swap puts that
   * thread's node on top, every other step leaves the list behind the head unchanged.
   */
  lemma StepRefinesPush(c: Config, run: seq<State>, labels: seq<Label>, i: nat, before: seq<nat>, after: seq<nat>)
    requires IsRun(c, run, labels) && i < |labels|
    requires IsChain(run[i].next, run[i].head, before)
    requires IsChain(run[i + 1].next, run[i + 1].head, after)
    ensures after == if labels[i].CasOk? then [c.nodes[labels[i].t]] + before else before
  {
    ReachableList(c, run, labels, i, before);
    ReachableList(c, run, labels, i + 1, after);
    var s, s' := run[i], run[i + 1];
    assert Step(c, s, labels[i], s');
    if labels[i].CasOk? {
      assert s'.order[..|s'.order| - 1] == s.order;
    }
  }

  function Members(s: seq<nat>): set<int> {
    set t: int | t in s
  }

  lemma {:induction false} DistinctCount(s: seq<nat>)
    requires Distinct(s)
    ensures |Members(s)| == |s|
  {
    if s != [] {
      var front, last := s[..|s| - 1], s[|s| - 1];
      DistinctCount(front);
      assert Members(s) == Members(front) + {last};
    }
  }

  /** Once all threads have returned, every node was pushed exactly once, in the order of success. */
  lemma AllPushed(c: Config, run: seq<State>, labels: seq<Label>)
    requires IsRun(c, run, labels)
    requires forall t :: 0 <= t < |c.nodes| ==> Returned(run[|labels|], t)
    ensures |run[|labels|].order| == |c.nodes| && Distinct(run[|labels|].order)
    ensures forall t :: 0 <= t < |c.nodes| ==> t in run[|labels|].order
  {
    RunInv(c, run, labels, |labels|);
    var s := run[|labels|];
    var all := Below(|c.nodes|);
    forall t | 0 <= t < |c.nodes| ensures t in s.order {
      assert Returned(s, t);
    }
    DistinctCount(s.order);
    assert Members(s.order) == all;
  }

  // ----- contention

  ghost function StaleThreads(s: State): set<int> {
    set t | 0 <= t < |s.pcs| && Stale(s, t)
  }

  /** 0 + 1 + ... + (n-1) */
  function Triangle(n: nat): nat {
    if n == 0 then 0 else Triangle(n - 1) + n - 1
  }

  lemma {:induction false} TriangleClosed(n: nat)
    ensures Triangle(n) == n * (n - 1) / 2
  {
    if n > 0 {
      TriangleClosed(n - 1);
      assert n * (n - 1) == (n - 1) * (n - 2) + 2 * (n - 1);
    }
  }

  /** Failures so far, failures in the making and failures still possible, against the whole budget. */
  ghost predicate Budget(s: State) {
    && |s.order| <= |s.pcs|
    && Sum(s.failures) + |StaleThreads(s)| + Triangle(|s.pcs| - |s.order|) <= Triangle(|s.pcs|)
  }

  /** A genuine failure is counted, and its thread is no longer stale. */
  lemma LossPaysBack(c: Config, s: State, t: nat, s': State)
    requires Inv(c, s) && Step(c, s, CasLost(t), s')
    ensures Sum(s'.failures) + |StaleThreads(s')| == Sum(s.failures) + |StaleThreads(s)|
  {
    assert Stale(s, t) && t in StaleThreads(s);
    assert StaleThreads(s') == StaleThreads(s) - {t};
    SumUpdate(s.failures, t, s.failures[t] + 1);
  }

  lemma QuietStep(c: Config, s: State, l: Label, s': State)
    requires Inv(c, s) && Step(c, s, l, s') && !l.CasLost? && !l.CasOk?
    ensures StaleThreads(s') == StaleThreads(s) && s'.failures == s.failures
  {
    assert forall t :: Stale(s', t) <==> Stale(s, t);
  }

  /** Only threads that have not returned can be stale. */
  lemma StaleCount(c: Config, s: State)
    requires ListInv(c, s)
    ensures |StaleThreads(s)| <= |s.pcs| - |s.order|
  {
    var all, finished := Below(|s.pcs|), Members(s.order);
    DistinctCount(s.order);
    forall t | t in finished ensures t in all {
      var i :| 0 <= i < |s.order| && s.order[i] == t;
    }
    SubsetCount(finished, all);
    SubsetCount(StaleThreads(s), all - finished);
  }

  /** A success makes at most the other running threads stale. */
  lemma SuccessCost(c: Config, s: State, t: nat, s': State)
    requires Inv(c, s) && Inv(c, s') && Step(c, s, CasOk(t), s') && Budget(s)
    ensures Budget(s')
  {
    StaleCount(c, s');
  }

  lemma StepBudget(c: Config, s: State, l: Label, s': State)
    requires Inv(c, s) && Step(c, s, l, s') && Budget(s)
    ensures Budget(s')
  {
    match l
    case CasLost(t) => LossPaysBack(c, s, t, s');
    case CasOk(t) =>
      StepInv(c, s, l, s');
      SuccessCost(c, s, t, s');
    case _ => QuietStep(c, s, l, s');
  }

  lemma InitBudget(c: Config, s: State)
    requires Init(c, s)
    ensures Budget(s)
  {
    SumConstant(|c.nodes|, 0);
    assert StaleThreads(s) == {};
  }

  lemma {:induction false} RunBudget(c: Config, run: seq<State>, labels: seq<Label>, i: nat)
    requires IsRun(c, run, labels) && i < |run|
    ensures Budget(run[i])
  {
    if i == 0 {
      InitBudget(c, run[0]);
    } else {
      RunBudget(c, run, labels, i - 1);
      RunInv(c, run, labels, i - 1);
      StepBudget(c, run[i - 1], labels[i - 1], run[i]);
    }
  }

  /** Over any run k threads suffer at most k(k-1)/2 genuine failures. */
  lemma ContentionBound(c: Config, run: seq<State>, labels: seq<Label>, i: nat)
    requires IsRun(c, run, labels) && i < |run|
    ensures Sum(run[i].failures) <= Triangle(|c.nodes|) == |c.nodes| * (|c.nodes| - 1) / 2
  {
    RunBudget(c, run, labels, i);
    RunInv(c, run, labels, i);
    TriangleClosed(|c.nodes|);
  }

  /** The push that succeeds p-th (from 0) failed at most p times before. */
  lemma FailuresBeforeSuccess(c: Config, run: seq<State>, labels: seq<Label>, i: nat, p: nat)
    requires IsRun(c, run, labels) && i < |run| && p < |run[i].order|
    ensures run[i].order[p] < |run[i].failures| && run[i].failures[run[i].order[p]] <= p
  {
    RunInv(c, run, labels, i);
    assert run[i].order[p] in run[i].order;
    assert Paid(run[i], run[i].order[p]);
  }

  /** Only another thread's success moves the head away from what t has loaded. */
  lemma StaleStep(c: Config, s: State, l: Label, s': State, t: nat)
    requires Step(c, s, l, s') && Stale(s', t)
    ensures Attempts(s, t, s'.pcs[t].cur)
    ensures Stale(s, t) || (l.CasOk? && l.t != t)
  {
  }

  /**
   * A genuine failure has a cause: since the load that began the failing attempt, and with
   * no other load by that thread in between, another thread's push succeeded.
   */
  lemma {:induction false} FailureHasCause(c: Config, run: seq<State>, labels: seq<Label>, j: nat, t: nat)
    returns (i: nat)
    requires IsRun(c, run, labels) && j < |run| && Stale(run[j], t)
    ensures i < j && labels[i].CasOk? && labels[i].t != t
    ensures forall n :: i <= n <= j ==> Attempts(run[n], t, run[j].pcs[t].cur)
  {
    assert j > 0;
    StaleStep(c, run[j - 1], labels[j - 1], run[j], t);
    if labels[j - 1].CasOk? && labels[j - 1].t != t {
      i := j - 1;
    } else {
      i := FailureHasCause(c, run, labels, j - 1, t);
    }
  }

  // ----- progress

  /** No thread ever waits: whoever has not returned can take a step. */
  lemma NeverBlocked(c: Config, run: seq<State>, labels: seq<Label>, i: nat, t: nat)
    requires IsRun(c, run, labels) && i < |run| && t < |c.nodes|
    ensures !Returned(run[i], t) <==> exists l: Label, s': State :: l.t == t && Step(c, run[i], l, s')
  {
    RunInv(c, run, labels, i);
    var s := run[i];
    var pc := s.pcs[t];
    if pc.AtLoad? {
      assert Step(c, s, Load(t), s.(pcs := s.pcs[t := AtStore(s.head)]));
    } else if pc.AtStore? {
      assert Step(c, s, Store(t), s.(next := s.next[c.nodes[t] := pc.cur], pcs := s.pcs[t := AtCas(pc.cur)]));
    } else if pc.AtCas? && s.head == pc.cur {
      assert Step(c, s, CasOk(t), s.(head := Node(c.nodes[t]), pcs := s.pcs[t := Done], order := s.order + [t]));
    } else if pc.AtCas? {
      assert Step(c, s, CasLost(t),
                  s.(pcs := s.pcs[t := AtLoad], failures := s.failures[t := s.failures[t] + 1]));
    }
  }

  /** Every duplicate-free choice of nodes can be pushed onto every list in memory that they are not part of. */
  lemma CanStart(c: Config, head: Ref, next: map<nat, Ref>) returns (s: State)
    requires Distinct(c.nodes + c.original) && IsChain(next, head, c.original)
    ensures IsRun(c, [s], []) && s.head == head && s.next == next
    ensures |s.pcs| == |c.nodes| && forall t :: 0 <= t < |s.pcs| ==> s.pcs[t] == AtLoad
  {
    s := State(head, next, seq(|c.nodes|, _ => AtLoad), [], seq(|c.nodes|, _ => 0), 0);
  }

  ghost predicate Possible(c: Config, s: State, l: Label) {
    exists s': State :: Step(c, s, l, s')
  }

  /**
   * What a thread can do depends on its own progress alone, but for the compare-and-swap: that
   * may succeed, or fail spuriously, exactly if the head is what the thread has loaded.
   */
  lemma PossibleSteps(c: Config, run: seq<State>, labels: seq<Label>, i: nat, t: nat)
    requires IsRun(c, run, labels) && i < |run| && t < |c.nodes|
    ensures |run[i].pcs| == |c.nodes|
    ensures Possible(c, run[i], Load(t)) <==> run[i].pcs[t].AtLoad?
    ensures Possible(c, run[i], Store(t)) <==> run[i].pcs[t].AtStore?
    ensures Possible(c, run[i], CasOk(t)) <==> run[i].pcs[t] == AtCas(run[i].head)
    ensures Possible(c, run[i], CasSpurious(t)) <==> run[i].pcs[t] == AtCas(run[i].head)
    ensures Possible(c, run[i], CasLost(t)) <==> run[i].pcs[t].AtCas? && run[i].pcs[t].cur != run[i].head
  {
    RunInv(c, run, labels, i);
    var s := run[i];
    var pc, retry := s.pcs[t], s.(pcs := s.pcs[t := AtLoad]);
    if pc.AtLoad? {
      assert Step(c, s, Load(t), s.(pcs := s.pcs[t := AtStore(s.head)]));
    } else if pc.AtStore? {
      assert Step(c, s, Store(t), s.(next := s.next[c.nodes[t] := pc.cur], pcs := s.pcs[t := AtCas(pc.cur)]));
    } else if pc.AtCas? && s.head == pc.cur {
      assert Step(c, s, CasOk(t), s.(head := Node(c.nodes[t]), pcs := s.pcs[t := Done], order := s.order + [t]));
      assert Step(c, s, CasSpurious(t), retry.(spurious := s.spurious + 1));
    } else if pc.AtCas? {
      assert Step(c, s, CasLost(t), retry.(failures := s.failures[t := s.failures[t] + 1]));
    }
  }

  /** At most this many steps of its own separate a thread from its return, if nobody interferes. */
  function StepsAlone(s: State, t: nat): nat
    requires t < |s.pcs|
  {
    match s.pcs[t]
    case AtLoad => 3
    case AtStore(cur) => if cur == s.head then 2 else 5
    case AtCas(cur) => if cur == s.head then 1 else 4
    case Done => 0
  }

  /**
   * From every reachable state a thread that runs alone returns within five steps, without any
   * spurious failure, and its push is the next to succeed.
   */
  lemma {:induction false} RunAlone(c: Config, run: seq<State>, labels: seq<Label>, t: nat)
    returns (run': seq<State>, labels': seq<Label>)
    requires IsRun(c, run, labels) && t < |c.nodes| && |run[|labels|].pcs| == |c.nodes|
    ensures IsRun(c, run', labels') && run <= run' && labels <= labels'
    ensures |labels'| == |labels| + StepsAlone(run[|labels|], t) <= |labels| + 5
    ensures forall i :: |labels| <= i < |labels'| ==> labels'[i].t == t && !labels'[i].CasSpurious?
    ensures Returned(run'[|labels'|], t)
    ensures run'[|labels'|].order == run[|labels|].order + if Returned(run[|labels|], t) then [] else [t]
    decreases StepsAlone(run[|labels|], t)
  {
    var s := run[|labels|];
    if s.pcs[t].Done? {
      return run, labels;
    }
    PossibleSteps(c, run, labels, |labels|, t);
    var l := match s.pcs[t]
      case AtLoad => Load(t)
      case AtStore(_) => Store(t)
      case AtCas(cur) => if cur == s.head then CasOk(t) else CasLost(t)
      case Done => Load(t);
    var s' :| Step(c, s, l, s');
    run', labels' := RunAlone(c, run + [s'], labels + [l], t);
  }

  /** Steps of a thread that belong to no failed attempt. */
  function Useful(pc: Pc): nat {
    match pc
    case AtLoad => 0
    case AtStore(_) => 1
    case AtCas(_) => 2
    case Done => 3
  }

  function UsefulSteps(pcs: seq<Pc>): seq<nat> {
    seq(|pcs|, t requires 0 <= t < |pcs| => Useful(pcs[t]))
  }

  lemma UsefulUpdate(pcs: seq<Pc>, t: nat, pc: Pc)
    requires t < |pcs|
    ensures Sum(UsefulSteps(pcs[t := pc])) == Sum(UsefulSteps(pcs)) - Useful(pcs[t]) + Useful(pc)
  {
    SumUpdate(UsefulSteps(pcs), t, Useful(pc));
    assert UsefulSteps(pcs[t := pc]) == UsefulSteps(pcs)[t := Useful(pc)];
  }

  /** Every failed attempt, genuine or spurious, costs exactly three steps. */
  lemma {:induction false} StepsAccounted(c: Config, run: seq<State>, labels: seq<Label>, i: nat)
    requires IsRun(c, run, labels) && i < |run|
    ensures i == 3 * (Sum(run[i].failures) + run[i].spurious) + Sum(UsefulSteps(run[i].pcs))
  {
    if i == 0 {
      SumConstant(|c.nodes|, 0);
      assert UsefulSteps(run[0].pcs) == seq(|c.nodes|, _ => 0);
    } else {
      StepsAccounted(c, run, labels, i - 1);
      var s, l, s' := run[i - 1], labels[i - 1], run[i];
      assert Step(c, s, l, s');
      UsefulUpdate(s.pcs, l.t, s'.pcs[l.t]);
      SumUpdate(s.failures, l.t, s'.failures[l.t]);
      assert s'.pcs == s.pcs[l.t := s'.pcs[l.t]] && s'.failures == s.failures[l.t := s'.failures[l.t]];
    }
  }

  /**
   * Lock freedom with numbers: whatever the schedule, k pushes take at most 3k + 3k(k-1)/2
   * steps, and three more for every spurious failure.
   */
  lemma StepBound(c: Config, run: seq<State>, labels: seq<Label>)
    requires IsRun(c, run, labels)
    ensures |labels| <= 3 * (|c.nodes| + Triangle(|c.nodes|) + run[|labels|].spurious)
  {
    StepsAccounted(c, run, labels, |labels|);
    ContentionBound(c, run, labels, |labels|);
    RunInv(c, run, labels, |labels|);
    SumBound(UsefulSteps(run[|labels|].pcs), 3);
  }
}
