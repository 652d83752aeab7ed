/**
 * Two processes alternating over a shared counter, src/apps/sem21/task20_3.c:16-35 and 45-59.
 *
 * Worker 0 is the parent (printed as 1), worker 1 the child (printed as 2).  Each blocks on its
 * own event counter; `ctx->begin += 1` is a load and a separate store.
 */
module PingPong {

  datatype Pc =
    | Starting | Blocked | Testing | Printing | Loading | Storing(v: nat) | Triggering
    | FinalTrigger | Waiting | Exited

  datatype State = State(counters: seq<nat>, begin: nat, pcs: seq<Pc>, log: seq<(nat, nat, nat)>)

  predicate Init(s: State) {
    s == State([0, 0], 0, [Starting, Blocked], [])
  }

  /** `do_trigger_fd`: a write adds to the counter. */
  function Trigger(counters: seq<nat>, w: nat): seq<nat>
    requires w < |counters|
  {
    counters[w := counters[w] + 1]
  }

  predicate Enabled(s: State, w: nat) {
    && w < 2 == |s.pcs| == |s.counters|
    && !s.pcs[w].Exited?
    && (s.pcs[w].Blocked? ==> s.counters[w] > 0)
    && (s.pcs[w].Waiting? ==> s.pcs[1 - w].Exited?)
  }

  /** One step of `work`, or of the parent around it. */
  function Next(end: nat, s: State, w: nat): State
    requires Enabled(s, w)
  {
    match s.pcs[w]
    case Starting => s.(counters := Trigger(s.counters, w), pcs := s.pcs[w := Blocked])
    case Blocked => s.(counters := s.counters[w := 0], pcs := s.pcs[w := Testing])
    case Testing => s.(pcs := s.pcs[w := if s.begin >= end then FinalTrigger else Printing])
    case Printing => s.(log := s.log + [(w + 1, s.begin, end)], pcs := s.pcs[w := Loading])
    case Loading => s.(pcs := s.pcs[w := Storing(s.begin)])
    case Storing(v) => s.(begin := v + 1, pcs := s.pcs[w := Triggering])
    case Triggering => s.(counters := Trigger(s.counters, 1 - w), pcs := s.pcs[w := Blocked])
    case FinalTrigger =>
      s.(counters := Trigger(s.counters, 1 - w), pcs := s.pcs[w := if w == 0 then Waiting else Exited])
    case Waiting => s.(pcs := s.pcs[w := Exited])
    case Exited => s
  }

  predicate Step(end: nat, s: State, w: nat, s': State) {
    Enabled(s, w) && s' == Next(end, s, w)
  }

  /** A finite run; `who` lists the worker that makes each step. */
  ghost predicate IsRun(end: nat, run: seq<State>, who: seq<nat>) {
    && |run| == |who| + 1
    && Init(run[0])
    && forall i :: 0 <= i < |who| ==> Step(end, run[i], who[i], run[i + 1])
  }

  // ----- invariant

  /** Between the read of the own counter and the next write to the other one. */
  predicate Holds(pc: Pc) {
    pc.Testing? || pc.Printing? || pc.Loading? || pc.Storing? || pc.Triggering? || pc.FinalTrigger?
  }

  /** Has left `work`. */
  predicate Gone(pc: Pc) {
    pc.Waiting? || pc.Exited?
  }

  function Tokens(s: State): nat
    requires |s.counters| == |s.pcs| == 2
  {
    s.counters[0] + s.counters[1] + (if Holds(s.pcs[0]) then 1 else 0) + if Holds(s.pcs[1]) then 1 else 0
  }

  function Entry(end: nat, k: nat): (nat, nat, nat) {
    (k % 2 + 1, k, end)
  }

  /** Worker w has, or is about to get, the token: as the next to print, or to learn that all is done. */
  predicate Turn(end: nat, s: State, w: nat)
    requires w < 2 == |s.pcs|
  {
    if Gone(s.pcs[1 - w]) then s.begin == end && w != end % 2 else w == s.begin % 2
  }

  predicate WorkerInv(end: nat, s: State, w: nat)
    requires w < 2 == |s.pcs| == |s.counters|
  {
    match s.pcs[w]
    case Starting => w == 0 && s == State([0, 0], 0, [Starting, Blocked], [])
    case Blocked => (s.counters[w] > 0 ==> Turn(end, s, w) && |s.log| == s.begin)
    case Testing => Turn(end, s, w) && |s.log| == s.begin
    case Printing => s.begin < end && Turn(end, s, w) && |s.log| == s.begin
    case Loading => s.begin < end && Turn(end, s, w) && |s.log| == s.begin + 1
    case Storing(v) => v == s.begin < end && Turn(end, s, w) && |s.log| == s.begin + 1
    case Triggering => s.begin >= 1 && w == (s.begin - 1) % 2 && |s.log| == s.begin && !Gone(s.pcs[1 - w])
    case FinalTrigger => s.begin == end && Turn(end, s, w) && |s.log| == s.begin
    case Waiting => w == 0 && s.begin == end == |s.log| && (w == end % 2 || Gone(s.pcs[1 - w]))
    case Exited => s.begin == end == |s.log| && (w == end % 2 || Gone(s.pcs[1 - w])) && (w == 0 ==> s.pcs[1].Exited?)
  }

  predicate GlobalInv(end: nat, s: State) {
    && |s.pcs| == |s.counters| == 2
    && s.begin <= end
    && Tokens(s) == (if s.pcs[0].Starting? then 0 else 1)
    && (Gone(s.pcs[0]) && Gone(s.pcs[1]) ==> s.counters[end % 2] == 1)
    && (Gone(s.pcs[0]) && s.pcs[1].Blocked? ==> s.counters[1] > 0)
    && (Gone(s.pcs[1]) && s.pcs[0].Blocked? ==> s.counters[0] > 0)
    && forall k :: 0 <= k < |s.log| ==> s.log[k] == Entry(end, k)
  }

  predicate Inv(end: nat, s: State) {
    GlobalInv(end, s) && WorkerInv(end, s, 0) && WorkerInv(end, s, 1)
  }

  lemma StepGlobal(end: nat, s: State, w: nat, s': State)
    requires Inv(end, s) && Step(end, s, w, s')
    ensures GlobalInv(end, s')
  {
    assert WorkerInv(end, s, w);
  }

  lemma StepSelf(end: nat, s: State, w: nat, s': State)
    requires Inv(end, s) && Step(end, s, w, s')
    ensures WorkerInv(end, s', w)
  {
    assert WorkerInv(end, s, w) && WorkerInv(end, s, 1 - w);
  }

  lemma StepOther(end: nat, s: State, w: nat, s': State)
    requires Inv(end, s) && Step(end, s, w, s')
    ensures WorkerInv(end, s', 1 - w)
  {
    assert WorkerInv(end, s, w) && WorkerInv(end, s, 1 - w);
  }

  lemma StepInv(end: nat, s: State, w: nat, s': State)
    requires Inv(end, s) && Step(end, s, w, s')
    ensures Inv(end, s')
  {
    StepGlobal(end, s, w, s');
    StepSelf(end, s, w, s');
    StepOther(end, s, w, s');
  }

  lemma {:induction false} RunInv(end: nat, run: seq<State>, who: seq<nat>, i: nat)
    requires IsRun(end, run, who) && i < |run|
    ensures Inv(end, run[i])
  {
    if i > 0 {
      RunInv(end, run, who, i - 1);
      StepInv(end, run[i - 1], who[i - 1], run[i]);
    }
  }

  // ----- safety

  /** One token in all, from the parent's first trigger on, so never two workers at the shared context. */
  lemma OneToken(end: nat, run: seq<State>, who: seq<nat>, i: nat)
    requires IsRun(end, run, who) && i < |run|
    ensures |run[i].pcs| == |run[i].counters| == 2
    ensures Tokens(run[i]) == if run[i].pcs[0].Starting? then 0 else 1
    ensures !(Holds(run[i].pcs[0]) && Holds(run[i].pcs[1]))
  {
    RunInv(end, run, who, i);
  }

  /** The log is at all times 0, 1, 2, ... below end, even numbers by worker 1, odd ones by worker 2. */
  lemma LogAlternates(end: nat, run: seq<State>, who: seq<nat>, i: nat)
    requires IsRun(end, run, who) && i < |run|
    ensures |run[i].log| <= end && run[i].begin <= end
    ensures forall k :: 0 <= k < |run[i].log| ==> run[i].log[k] == (if k % 2 == 0 then 1 else 2, k, end)
  {
    RunInv(end, run, who, i);
    var s := run[i];
    assert |s.log| <= end by {
      assert WorkerInv(end, s, 0) && WorkerInv(end, s, 1);
    }
  }

  /** A worker blocks on a counter that is 0, and the parent at the end until the child has exited. */
  lemma PossibleSteps(end: nat, run: seq<State>, who: seq<nat>, i: nat, w: nat)
    requires IsRun(end, run, who) && i < |run| && w < 2
    ensures |run[i].pcs| == |run[i].counters| == 2
    ensures (exists s': State :: Step(end, run[i], w, s')) <==>
            !run[i].pcs[w].Exited? && (run[i].pcs[w].Blocked? ==> run[i].counters[w] > 0)
            && (run[i].pcs[w].Waiting? ==> run[i].pcs[1 - w].Exited?)
  {
    RunInv(end, run, who, i);
    if Enabled(run[i], w) {
      assert Step(end, run[i], w, Next(end, run[i], w));
    }
  }

  // ----- termination

  function Weight(pc: Pc): nat {
    match pc
    case Starting => 12
    case Blocked => 10
    case Testing => 9
    case Printing => 8
    case Loading => 7
    case Storing(_) => 6
    case Triggering => 12
    case FinalTrigger => 5
    case Waiting => 2
    case Exited => 0
  }

  function Measure(end: nat, s: State): int
    requires |s.pcs| == 2
  {
    20 * (end - s.begin) + Weight(s.pcs[0]) + Weight(s.pcs[1])
  }

  lemma StepMeasure(end: nat, s: State, w: nat, s': State)
    requires Inv(end, s) && Step(end, s, w, s')
    ensures |s'.pcs| == 2 && Measure(end, s') < Measure(end, s)
  {
  }

  lemma {:induction false} RunMeasure(end: nat, run: seq<State>, who: seq<nat>, i: nat)
    requires IsRun(end, run, who) && i < |run|
    ensures |run[i].pcs| == 2 && i + Measure(end, run[i]) <= 20 * end + 22
  {
    RunInv(end, run, who, i);
    if i > 0 {
      RunMeasure(end, run, who, i - 1);
      RunInv(end, run, who, i - 1);
      StepMeasure(end, run[i - 1], who[i - 1], run[i]);
    }
  }

  ghost predicate Stuck(end: nat, s: State) {
    forall w: nat, s': State :: !Step(end, s, w, s')
  }

  lemma SomebodyMoves(end: nat, s: State)
    requires Inv(end, s) && s.pcs != [Exited, Exited]
    ensures !Stuck(end, s)
  {
    assert forall w: nat :: Enabled(s, w) ==> Step(end, s, w, Next(end, s, w));
    assert WorkerInv(end, s, 0) && WorkerInv(end, s, 1);
    assert Enabled(s, 0) || Enabled(s, 1);
  }

  /**
   * Every run is finite, and one that cannot go on has both workers exited, begin = end and
   * the full log.  One unread trigger is left, for the worker that found the end first.
   */
  lemma AlwaysFinishes(end: nat, run: seq<State>, who: seq<nat>)
    requires IsRun(end, run, who)
    ensures |who| <= 20 * end + 22
    ensures Stuck(end, run[|who|]) <==> run[|who|].pcs == [Exited, Exited]
    ensures Stuck(end, run[|who|]) ==>
              run[|who|].begin == end == |run[|who|].log|
              && |run[|who|].counters| == 2 && run[|who|].counters[end % 2] == 1
              && run[|who|].counters[1 - end % 2] == 0
  {
    var n := |who|;
    RunInv(end, run, who, n);
    RunMeasure(end, run, who, n);
    if run[n].pcs != [Exited, Exited] {
      SomebodyMoves(end, run[n]);
    }
  }

  /** Every run goes on to a complete one. */
  lemma {:induction false} Complete(end: nat, run: seq<State>, who: seq<nat>)
    returns (run': seq<State>, who': seq<nat>)
    requires IsRun(end, run, who)
    ensures IsRun(end, run', who') && run <= run' && Stuck(end, run'[|who'|])
    decreases 20 * end + 22 - |who|
  {
    var s := run[|who|];
    AlwaysFinishes(end, run, who);
    if Stuck(end, s) {
      return run, who;
    }
    var w: nat, s': State :| Step(end, s, w, s');
    AlwaysFinishes(end, run + [s'], who + [w]);
    run', who' := Complete(end, run + [s'], who + [w]);
  }

  /** For any end there is a run that prints all of 0, 1, ..., end - 1 and lets both workers exit. */
  lemma CanFinish(end: nat) returns (run: seq<State>, who: seq<nat>)
    ensures IsRun(end, run, who) && run[|who|].pcs == [Exited, Exited] && |run[|who|].log| == end
  {
    run, who := Complete(end, [State([0, 0], 0, [Starting, Blocked], [])], []);
    AlwaysFinishes(end, run, who);
  }
}
