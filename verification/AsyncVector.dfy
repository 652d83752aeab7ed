/**
 * The fork/join map, src/apps/sem24/cpp_magic.cpp:12-24 and 44-67: one detached thread per
 * input writes its result into a slot of the shared vector, then adds one to an atomic counter,
 * and the thread whose increment reaches the number of inputs calls the callback.
 */
module AsyncVector {
  import opened Counting

  /** A thread keeps the value its `++` returned. */
  datatype Pc = NotLaunched | Computing | Counting | Counted(ticket: nat) | Returned(ticket: nat)

  datatype Config<!X, Y> = Config(ins: seq<X>, f: X -> Y)

  /** `calls` lists the arguments of the callback, in order. */
  datatype State<Y> = State(launched: nat, pcs: seq<Pc>, output: seq<Y>, count: nat, calls: seq<seq<Y>>)

  datatype Label = Launch | Worker(i: nat)

  /** The slots of the vector start with some default values. */
  predicate Init<X, Y>(c: Config<X, Y>, s: State<Y>) {
    && |s.output| == |c.ins|
    && s.launched == 0 && s.pcs == seq(|c.ins|, _ => NotLaunched)
    && s.count == 0 && |s.calls| == 0
  }

  predicate Enabled<X, Y>(c: Config<X, Y>, s: State<Y>, l: Label) {
    && |s.pcs| == |s.output| == |c.ins|
    && match l
       case Launch => s.launched < |c.ins|
       case Worker(i) => i < |c.ins| && !s.pcs[i].NotLaunched? && !s.pcs[i].Returned?
  }

  function Next<X, Y>(c: Config<X, Y>, s: State<Y>, l: Label): State<Y>
    requires Enabled(c, s, l)
  {
    match l
    case Launch => s.(launched := s.launched + 1, pcs := s.pcs[s.launched := Computing])
    case Worker(i) =>
      match s.pcs[i]
      case Computing => s.(output := s.output[i := c.f(c.ins[i])], pcs := s.pcs[i := Counting])
      case Counting => s.(count := s.count + 1, pcs := s.pcs[i := Counted(s.count + 1)])
      case Counted(ticket) =>
        s.(calls := if ticket == |c.ins| then s.calls + [s.output] else s.calls, pcs := s.pcs[i := Returned(ticket)])
      case _ => s
  }

  ghost predicate Step<X, Y>(c: Config<X, Y>, s: State<Y>, l: Label, s': State<Y>)
  {
    Enabled(c, s, l) && s' == Next(c, s, l)
  }

  ghost predicate IsRun<X, Y>(c: Config<X, Y>, run: seq<State<Y>>, labels: seq<Label>) {
    && |run| == |labels| + 1
    && Init(c, run[0])
    && forall i :: 0 <= i < |labels| ==> Step(c, run[i], labels[i], run[i + 1])
  }

  // ----- invariant

  predicate HasTicket(pc: Pc) {
    pc.Counted? || pc.Returned?
  }

  predicate Written(pc: Pc) {
    pc.Counting? || HasTicket(pc)
  }

  function Ticketed<Y>(s: State<Y>): set<int> {
    set i | 0 <= i < |s.pcs| && HasTicket(s.pcs[i])
  }

  ghost predicate SlotInv<X, Y>(c: Config<X, Y>, s: State<Y>, i: nat)
    requires i < |s.pcs| == |s.output| == |c.ins|
  {
    && (s.pcs[i].NotLaunched? <==> i >= s.launched)
    && (Written(s.pcs[i]) ==> s.output[i] == c.f(c.ins[i]))
    && (HasTicket(s.pcs[i]) ==> 1 <= s.pcs[i].ticket <= s.count)
  }

  /** Tickets are pairwise different. */
  predicate TicketInv<Y>(s: State<Y>) {
    forall i, j :: 0 <= i < j < |s.pcs| && HasTicket(s.pcs[i]) && HasTicket(s.pcs[j]) ==>
      s.pcs[i].ticket != s.pcs[j].ticket
  }

  /** A thread with the last ticket has called back. */
  predicate HasCalled<X, Y>(c: Config<X, Y>, s: State<Y>, i: nat) {
    i < |s.pcs| && s.pcs[i] == Returned(|c.ins|)
  }

  function Image<X, Y>(c: Config<X, Y>): seq<Y> {
    seq(|c.ins|, i requires 0 <= i < |c.ins| => c.f(c.ins[i]))
  }

  ghost predicate Inv<X, Y>(c: Config<X, Y>, s: State<Y>) {
    && |s.pcs| == |s.output| == |c.ins| && s.launched <= |c.ins|
    && (forall i :: 0 <= i < |c.ins| ==> SlotInv(c, s, i))
    && TicketInv(s)
    && s.count == |Ticketed(s)|
    && (s.count > 0 ==> exists i :: 0 <= i < |s.pcs| && HasTicket(s.pcs[i]) && s.pcs[i].ticket == s.count)
    && (if exists i: nat :: HasCalled(c, s, i) then s.calls == [Image(c)] else s.calls == [])
  }

  /** The counter stays within the launched threads. */
  lemma CountBelowLaunched<X, Y>(c: Config<X, Y>, s: State<Y>)
    requires |s.pcs| == |s.output| == |c.ins| && s.launched <= |c.ins|
    requires forall i :: 0 <= i < |c.ins| ==> SlotInv(c, s, i)
    ensures |Ticketed(s)| <= s.launched
    ensures |Ticketed(s)| == |c.ins| ==> forall i :: 0 <= i < |c.ins| ==> HasTicket(s.pcs[i])
  {
    forall i | i in Ticketed(s) ensures i in Below(s.launched) {
      assert SlotInv(c, s, i);
    }
    SubsetCount(Ticketed(s), Below(s.launched));
    if |Ticketed(s)| == |c.ins| {
      assert Ticketed(s) == Below(|c.ins|);
      forall i | 0 <= i < |c.ins| ensures HasTicket(s.pcs[i]) {
        assert i in Ticketed(s);
      }
    }
  }

  lemma QuietStep<X, Y>(c: Config<X, Y>, s: State<Y>, l: Label, s': State<Y>)
    requires Inv(c, s) && Step(c, s, l, s') && (l.Launch? || s.pcs[l.i].Computing?)
    ensures Inv(c, s')
  {
    forall i | 0 <= i < |c.ins| ensures SlotInv(c, s', i) {
      assert SlotInv(c, s, i);
    }
    var changed := if l.Launch? then s.launched else l.i;
    assert SlotInv(c, s, changed);
    assert Ticketed(s') == Ticketed(s);
    assert forall i: nat :: HasCalled(c, s', i) <==> HasCalled(c, s, i);
    if s.count > 0 {
      var i :| 0 <= i < |s.pcs| && HasTicket(s.pcs[i]) && s.pcs[i].ticket == s.count;
      assert HasTicket(s'.pcs[i]) && s'.pcs[i].ticket == s'.count;
    }
  }

  lemma CountStep<X, Y>(c: Config<X, Y>, s: State<Y>, i: nat, s': State<Y>)
    requires Inv(c, s) && Step(c, s, Worker(i), s') && s.pcs[i].Counting?
    ensures Inv(c, s')
  {
    forall j | 0 <= j < |c.ins| ensures SlotInv(c, s', j) {
      assert SlotInv(c, s, j);
    }
    forall j, k | 0 <= j < k < |s'.pcs| && HasTicket(s'.pcs[j]) && HasTicket(s'.pcs[k])
      ensures s'.pcs[j].ticket != s'.pcs[k].ticket
    {
      assert SlotInv(c, s, j) && SlotInv(c, s, k);
    }
    assert Ticketed(s') == Ticketed(s) + {i};
    assert HasTicket(s'.pcs[i]) && s'.pcs[i].ticket == s'.count;
    assert forall j: nat :: HasCalled(c, s', j) <==> HasCalled(c, s, j);
  }

  /** The thread with the last ticket is the only one to call, and finds every slot written. */
  lemma LastTicketCalls<X, Y>(c: Config<X, Y>, s: State<Y>, i: nat, s': State<Y>)
    requires Inv(c, s) && Step(c, s, Worker(i), s') && s.pcs[i].Counted?
    ensures if exists j: nat :: HasCalled(c, s', j) then s'.calls == [Image(c)] else s'.calls == []
  {
    if s.pcs[i].ticket == |c.ins| {
      assert SlotInv(c, s, i);
      CountBelowLaunched(c, s);
      forall j | 0 <= j < |c.ins| ensures s.output[j] == Image(c)[j] {
        assert SlotInv(c, s, j);
      }
      assert s.output == Image(c);
      assert HasCalled(c, s', i);
      assert forall j: nat :: !HasCalled(c, s, j);
    } else {
      assert forall j: nat :: HasCalled(c, s', j) <==> HasCalled(c, s, j);
    }
  }

  lemma ReturnStep<X, Y>(c: Config<X, Y>, s: State<Y>, i: nat, s': State<Y>)
    requires Inv(c, s) && Step(c, s, Worker(i), s') && s.pcs[i].Counted?
    ensures Inv(c, s')
  {
    forall j | 0 <= j < |c.ins| ensures SlotInv(c, s', j) {
      assert SlotInv(c, s, j);
    }
    assert Ticketed(s') == Ticketed(s);
    if s.count > 0 {
      var j :| 0 <= j < |s.pcs| && HasTicket(s.pcs[j]) && s.pcs[j].ticket == s.count;
      assert HasTicket(s'.pcs[j]) && s'.pcs[j].ticket == s'.count;
    }
    LastTicketCalls(c, s, i, s');
  }

  lemma StepInv<X, Y>(c: Config<X, Y>, s: State<Y>, l: Label, s': State<Y>)
    requires Inv(c, s) && Step(c, s, l, s')
    ensures Inv(c, s')
  {
    if l.Launch? || s.pcs[l.i].Computing? {
      QuietStep(c, s, l, s');
    } else if s.pcs[l.i].Counting? {
      CountStep(c, s, l.i, s');
    } else {
      ReturnStep(c, s, l.i, s');
    }
  }

  lemma InitInv<X, Y>(c: Config<X, Y>, s: State<Y>)
    requires Init(c, s)
    ensures Inv(c, s)
  {
    assert Ticketed(s) == {};
    assert forall i: nat :: !HasCalled(c, s, i);
  }

  lemma {:induction false} RunInv<X, Y>(c: Config<X, Y>, run: seq<State<Y>>, labels: seq<Label>, i: nat)
    requires IsRun(c, run, labels) && i < |run|
    ensures Inv(c, run[i])
  {
    if i == 0 {
      InitInv(c, run[0]);
    } else {
      RunInv(c, run, labels, i - 1);
      StepInv(c, run[i - 1], labels[i - 1], run[i]);
    }
  }

  // ----- the callback

  /**
   * In every reachable state the callback has run at most once, and if so after all threads
   * were launched and all slots written, on the pointwise image of the inputs; never for no inputs.
   */
  lemma CallbackAtMostOnce<X, Y>(c: Config<X, Y>, run: seq<State<Y>>, labels: seq<Label>, i: nat)
    requires IsRun(c, run, labels) && i < |run|
    ensures run[i].calls in {[], [Image(c)]}
    ensures run[i].calls != [] ==> |c.ins| > 0 && run[i].launched == |c.ins| && run[i].output == Image(c)
  {
    RunInv(c, run, labels, i);
    var s := run[i];
    if j: nat :| HasCalled(c, s, j) {
      assert SlotInv(c, s, j);
      CountBelowLaunched(c, s);
      forall k | 0 <= k < |c.ins| ensures s.output[k] == Image(c)[k] {
        assert SlotInv(c, s, k);
      }
    }
  }

  /** The counter cannot reach the number of inputs before the last launch. */
  lemma CountBounded<X, Y>(c: Config<X, Y>, run: seq<State<Y>>, labels: seq<Label>, i: nat)
    requires IsRun(c, run, labels) && i < |run|
    ensures run[i].count <= run[i].launched <= |c.ins|
  {
    RunInv(c, run, labels, i);
    CountBelowLaunched(c, run[i]);
  }

  /** The next thread can be launched, and a launched one that has not returned can go on, at any time. */
  lemma PossibleSteps<X, Y>(c: Config<X, Y>, run: seq<State<Y>>, labels: seq<Label>, i: nat, j: nat)
    requires IsRun(c, run, labels) && i < |run| && j < |c.ins|
    ensures |run[i].pcs| == |c.ins|
    ensures Enabled(c, run[i], Launch) <==> run[i].launched < |c.ins|
    ensures Enabled(c, run[i], Worker(j)) <==> j < run[i].launched && !run[i].pcs[j].Returned?
  {
    RunInv(c, run, labels, i);
    assert SlotInv(c, run[i], j);
  }

  // ----- termination

  function StepsDone(pc: Pc): nat {
    match pc
    case NotLaunched => 0
    case Computing => 1
    case Counting => 2
    case Counted(_) => 3
    case Returned(_) => 4
  }

  function Progress(pcs: seq<Pc>): seq<nat> {
    seq(|pcs|, i requires 0 <= i < |pcs| => StepsDone(pcs[i]))
  }

  lemma StepAdvances<X, Y>(c: Config<X, Y>, s: State<Y>, l: Label, s': State<Y>)
    requires Inv(c, s) && Step(c, s, l, s')
    ensures Sum(Progress(s'.pcs)) == Sum(Progress(s.pcs)) + 1
  {
    var j := if l.Launch? then s.launched else l.i;
    assert SlotInv(c, s, j);
    SumUpdate(Progress(s.pcs), j, StepsDone(s'.pcs[j]));
    assert Progress(s'.pcs) == Progress(s.pcs)[j := StepsDone(s'.pcs[j])];
  }

  /** Every step advances exactly one thread by one. */
  lemma {:induction false} StepsAccounted<X, Y>(c: Config<X, Y>, run: seq<State<Y>>, labels: seq<Label>, i: nat)
    requires IsRun(c, run, labels) && i < |run|
    ensures i == Sum(Progress(run[i].pcs))
  {
    if i == 0 {
      assert Progress(run[0].pcs) == seq(|c.ins|, _ => 0);
      SumConstant(|c.ins|, 0);
    } else {
      StepsAccounted(c, run, labels, i - 1);
      RunInv(c, run, labels, i - 1);
      StepAdvances(c, run[i - 1], labels[i - 1], run[i]);
    }
  }

  ghost predicate Stuck<X, Y>(c: Config<X, Y>, s: State<Y>) {
    forall l: Label :: !Enabled(c, s, l)
  }

  lemma StuckMeansReturned<X, Y>(c: Config<X, Y>, s: State<Y>)
    requires Inv(c, s) && Stuck(c, s)
    ensures forall i :: 0 <= i < |c.ins| ==> s.pcs[i].Returned?
  {
    forall i | 0 <= i < |c.ins| ensures s.pcs[i].Returned? {
      assert !Enabled(c, s, Launch) && !Enabled(c, s, Worker(i));
      assert SlotInv(c, s, i);
    }
  }

  lemma AllReturnedMeansCalled<X, Y>(c: Config<X, Y>, s: State<Y>)
    requires Inv(c, s) && |c.ins| > 0 && forall i :: 0 <= i < |c.ins| ==> s.pcs[i].Returned?
    ensures s.calls == [Image(c)]
  {
    assert Ticketed(s) == Below(|c.ins|);
    var i :| 0 <= i < |s.pcs| && HasTicket(s.pcs[i]) && s.pcs[i].ticket == s.count;
    assert HasCalled(c, s, i);
  }

  /**
   * Every run is finite, and one that cannot go on has called back exactly once, with the image
   * of the inputs, or not at all when there are none.
   */
  lemma AlwaysCallsBack<X, Y>(c: Config<X, Y>, run: seq<State<Y>>, labels: seq<Label>)
    requires IsRun(c, run, labels)
    ensures |labels| <= 4 * |c.ins|
    ensures Stuck(c, run[|labels|]) ==>
              |labels| == 4 * |c.ins| && run[|labels|].calls == if |c.ins| == 0 then [] else [Image(c)]
  {
    var n := |labels|;
    var s := run[n];
    RunInv(c, run, labels, n);
    StepsAccounted(c, run, labels, n);
    SumBound(Progress(s.pcs), 4);
    if Stuck(c, s) {
      StuckMeansReturned(c, s);
      SumConstant(|c.ins|, 4);
      assert Progress(s.pcs) == seq(|c.ins|, _ => 4);
      if |c.ins| > 0 {
        AllReturnedMeansCalled(c, s);
      }
    }
  }

  /** Every run goes on to a complete one. */
  lemma {:induction false} Complete<X, Y>(c: Config<X, Y>, run: seq<State<Y>>, labels: seq<Label>)
    returns (run': seq<State<Y>>, labels': seq<Label>)
    requires IsRun(c, run, labels)
    ensures IsRun(c, run', labels') && run <= run' && Stuck(c, run'[|labels'|])
    decreases 4 * |c.ins| - |labels|
  {
    var s := run[|labels|];
    AlwaysCallsBack(c, run, labels);
    if Stuck(c, s) {
      return run, labels;
    }
    var l: Label :| Enabled(c, s, l);
    AlwaysCallsBack(c, run + [Next(c, s, l)], labels + [l]);
    run', labels' := Complete(c, run + [Next(c, s, l)], labels + [l]);
  }

  /** For any inputs, function and initial slots there is a run, and it ends with the call. */
  lemma CanCallBack<X, Y>(c: Config<X, Y>, output: seq<Y>) returns (run: seq<State<Y>>, labels: seq<Label>)
    requires |output| == |c.ins|
    ensures IsRun(c, run, labels) && run[0].output == output
    ensures run[|labels|].calls == if c.ins == [] then [] else [Image(c)]
  {
    var start := State(0, seq(|c.ins|, _ => NotLaunched), output, 0, []);
    run, labels := Complete(c, [start], []);
    AlwaysCallsBack(c, run, labels);
  }
}
