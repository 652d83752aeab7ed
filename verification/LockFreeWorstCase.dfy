/**
 * The contention bound of `atomic_push` is reached: for every number of threads there is a
 * schedule without spurious failures in which exactly k(k-1)/2 compare-and-swaps fail.
 * In round r every running thread loads and stores, thread r wins, and the others lose.
 */
module LockFreeWorstCase {
  import opened LockFreePush
  import opened Counting

  /** Rounds before r are over. */
  predicate RoundStart(c: Config, s: State, r: nat) {
    && |s.pcs| == |s.failures| == |c.nodes| && r <= |c.nodes|
    && s.order == seq(r, i => i) && s.spurious == 0
    && forall t :: 0 <= t < |s.pcs| ==>
         s.pcs[t] == (if t < r then Done else AtLoad) && s.failures[t] == if t < r then t else r
  }

  /** In round r, threads r..x are about to compare with the same head. */
  predicate Loaded(c: Config, s: State, r: nat, x: nat) {
    && |s.pcs| == |s.failures| == |c.nodes| && r <= x <= |c.nodes|
    && s.order == seq(r, i => i) && s.spurious == 0
    && forall t :: 0 <= t < |s.pcs| ==>
         s.pcs[t] == (if t < r then Done else if t < x then AtCas(s.head) else AtLoad)
         && s.failures[t] == if t < r then t else r
  }

  /** In round r, thread r has won and threads r+1..x have lost against it. */
  predicate Lost(c: Config, s: State, r: nat, x: nat, oldHead: Ref) {
    && |s.pcs| == |s.failures| == |c.nodes| && r < x <= |c.nodes| && s.head != oldHead
    && s.order == seq(r + 1, i => i) && s.spurious == 0
    && forall t :: 0 <= t < |s.pcs| ==>
         s.pcs[t] == (if t <= r then Done else if t < x then AtLoad else AtCas(oldHead))
         && s.failures[t] == if t <= r then t else if t < x then r + 1 else r
  }

  lemma Extend(c: Config, run: seq<State>, labels: seq<Label>, l: Label, s': State)
    requires IsRun(c, run, labels) && Step(c, run[|labels|], l, s')
    ensures IsRun(c, run + [s'], labels + [l]) && (run + [s'])[|labels| + 1] == s'
  {
  }

  lemma {:induction false} LoadAndStore(c: Config, run: seq<State>, labels: seq<Label>, r: nat, x: nat)
    returns (run': seq<State>, labels': seq<Label>)
    requires IsRun(c, run, labels) && Loaded(c, run[|labels|], r, x)
    ensures IsRun(c, run', labels') && run'[0] == run[0] && Loaded(c, run'[|labels'|], r, |c.nodes|)
    decreases |c.nodes| - x
  {
    if x == |c.nodes| {
      return run, labels;
    }
    var s := run[|labels|];
    var s1 := s.(pcs := s.pcs[x := AtStore(s.head)]);
    var s2 := s1.(next := s1.next[c.nodes[x] := s.head], pcs := s1.pcs[x := AtCas(s.head)]);
    Extend(c, run, labels, Load(x), s1);
    Extend(c, run + [s1], labels + [Load(x)], Store(x), s2);
    run', labels' := LoadAndStore(c, run + [s1] + [s2], labels + [Load(x)] + [Store(x)], r, x + 1);
  }

  lemma Win(c: Config, run: seq<State>, labels: seq<Label>, r: nat)
    returns (run': seq<State>, labels': seq<Label>)
    requires IsRun(c, run, labels) && r < |c.nodes| && Loaded(c, run[|labels|], r, |c.nodes|)
    ensures IsRun(c, run', labels') && run'[0] == run[0] && Lost(c, run'[|labels'|], r, r + 1, run[|labels|].head)
  {
    var s := run[|labels|];
    RunInv(c, run, labels, |labels|);
    StackMembers(c, s.order, r);
    var s' := s.(head := Node(c.nodes[r]), pcs := s.pcs[r := Done], order := s.order + [r]);
    Extend(c, run, labels, CasOk(r), s');
    assert s'.order == seq(r + 1, i => i);
    run', labels' := run + [s'], labels + [CasOk(r)];
  }

  lemma {:induction false} Lose(c: Config, run: seq<State>, labels: seq<Label>, r: nat, x: nat, oldHead: Ref)
    returns (run': seq<State>, labels': seq<Label>)
    requires IsRun(c, run, labels) && Lost(c, run[|labels|], r, x, oldHead)
    ensures IsRun(c, run', labels') && run'[0] == run[0] && Lost(c, run'[|labels'|], r, |c.nodes|, oldHead)
    decreases |c.nodes| - x
  {
    if x == |c.nodes| {
      return run, labels;
    }
    var s := run[|labels|];
    var s' := s.(pcs := s.pcs[x := AtLoad], failures := s.failures[x := s.failures[x] + 1]);
    Extend(c, run, labels, CasLost(x), s');
    run', labels' := Lose(c, run + [s'], labels + [CasLost(x)], r, x + 1, oldHead);
  }

  lemma {:induction false} Rounds(c: Config, start: State, r: nat)
    returns (run: seq<State>, labels: seq<Label>)
    requires Init(c, start) && r <= |c.nodes|
    ensures IsRun(c, run, labels) && run[0] == start && RoundStart(c, run[|labels|], r)
  {
    if r == 0 {
      return [start], [];
    }
    run, labels := Rounds(c, start, r - 1);
    run, labels := LoadAndStore(c, run, labels, r - 1, r - 1);
    var oldHead := run[|labels|].head;
    run, labels := Win(c, run, labels, r - 1);
    run, labels := Lose(c, run, labels, r - 1, r, oldHead);
  }

  lemma {:induction false} SumUpTo(k: nat)
    ensures Sum(seq(k, i => i)) == Triangle(k)
  {
    if k > 0 {
      SumUpTo(k - 1);
      SumSnoc(seq(k - 1, i => i), k - 1);
      assert seq(k, i => i) == seq(k - 1, i => i) + [k - 1];
    }
  }

  /** The bound k(k-1)/2 cannot be improved, whatever the nodes and the original list. */
  lemma BoundIsReached(c: Config, start: State)
    returns (run: seq<State>, labels: seq<Label>)
    requires Init(c, start)
    ensures IsRun(c, run, labels) && run[0] == start
    ensures Sum(run[|labels|].failures) == Triangle(|c.nodes|) && run[|labels|].spurious == 0
    ensures forall t: nat :: t < |c.nodes| ==> Returned(run[|labels|], t)
  {
    run, labels := Rounds(c, start, |c.nodes|);
    SumUpTo(|c.nodes|);
    assert run[|labels|].failures == seq(|c.nodes|, i => i);
  }
}
