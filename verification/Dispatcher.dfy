/**
 * The token-passing dispatcher, src/apps/sem22/task21_4.c:23-52 and 61-78.
 *
 * Each of n threads sleeps on its own event counter: a write adds to it, a read takes all of
 * it and blocks on 0.  Reading 1 makes a thread consume one number and wake the thread the
 * number names; at the end of the input it writes 2 to every counter, and 2 means exit.
 */
module Dispatcher {
  import opened Arithmetic
  import opened Counting

  const ACTIVATE := 1
  const EXIT := 2

  datatype Fd = Absent | Open(count: nat) | Closed

  datatype ThreadPc =
    | NotStarted | Reading | Got(value: nat) | Scanning
    | Printing(v: int) | Writing(v: int) | Broadcasting(i: nat) | Exited

  /** `Joining(n)` is the end of `main`. */
  datatype MainPc = Creating(i: nat) | Activating | Joining(i: nat) | Closing(i: nat)

  /** C's `%` for a positive divisor: what is left between -n and n, with the sign of a. */
  function CRem(a: int, n: nat): int
    requires n > 0
    decreases if a < 0 then -a else a
  {
    if a >= n then CRem(a - n, n) else if a <= -(n as int) then CRem(a + n, n) else a
  }

  lemma {:induction false} CRemRange(a: int, n: nat)
    requires n > 0
    ensures -(n as int) < CRem(a, n) < n
    decreases if a < 0 then -a else a
  {
    if a >= n {
      CRemRange(a - n, n);
    } else if a <= -(n as int) {
      CRemRange(a + n, n);
    }
  }

  /** The index computed from an input number. */
  function Target(v: int, n: nat): (t: nat)
    requires n > 0
    ensures t < n
  {
    CRemRange(v, n);
    var x := CRem(v, n);
    if x < 0 then x + n else x
  }

  /**
   * n threads; `input` holds the numbers before the first failing `scanf`; `wake` maps a number to
   * the thread it names.
   */
  datatype Config = Config(n: nat, input: seq<int>, wake: int -> nat) {
    /** `wake` is what the source computes. */
    ghost predicate Valid() {
      n >= 1 && forall v :: wake(v) == Target(v, n)
    }

    ghost predicate InRange() {
      n >= 1 && forall v :: wake(v) < n
    }
  }

  datatype State = State(
    main: MainPc, pcs: seq<ThreadPc>, fds: seq<Fd>,
    pos: nat, eof: bool, log: seq<(nat, int)>)

  datatype Label = Main | Thread(t: nat)

  predicate Init(c: Config, s: State) {
    && s == State(Creating(0), seq(c.n, _ => NotStarted), seq(c.n, _ => Absent), 0, false, [])
  }

  /** A write to anything but an open descriptor fails and changes nothing. */
  function Write(fds: seq<Fd>, i: nat, v: nat): seq<Fd> {
    if i < |fds| && fds[i].Open? then fds[i := Open(fds[i].count + v)] else fds
  }

  predicate MainEnabled(c: Config, s: State) {
    match s.main
    case Creating(i) => i < |s.pcs| == |s.fds|
    case Activating => true
    case Joining(i) => i < |s.pcs| && s.pcs[i].Exited?
    case Closing(i) => i < |s.fds|
  }

  function MainNext(c: Config, s: State): State
    requires MainEnabled(c, s)
  {
    match s.main
    case Creating(i) =>
      s.(main := if i + 1 < c.n then Creating(i + 1) else Activating,
         fds := s.fds[i := Open(0)], pcs := s.pcs[i := Reading])
    case Activating => s.(main := Joining(0), fds := Write(s.fds, 0, ACTIVATE))
    case Joining(i) => s.(main := Closing(i))
    case Closing(i) => s.(main := Joining(i + 1), fds := s.fds[i := Closed])
  }

  predicate ThreadEnabled(c: Config, s: State, t: nat) {
    && t < |s.pcs| == |s.fds| == c.n
    && !s.pcs[t].NotStarted? && !s.pcs[t].Exited?
    && (s.pcs[t].Reading? ==> s.fds[t].Open? && s.fds[t].count > 0)
  }

  function ThreadNext(c: Config, s: State, t: nat): State
    requires ThreadEnabled(c, s, t)
  {
    match s.pcs[t]
    case Reading => s.(pcs := s.pcs[t := Got(s.fds[t].count)], fds := s.fds[t := Open(0)])
    case Got(value) => s.(pcs := s.pcs[t := if value == EXIT then Exited else Scanning])
    case Scanning =>
      if s.pos >= |c.input| then s.(pcs := s.pcs[t := Broadcasting(0)], eof := true)
      else s.(pcs := s.pcs[t := Printing(c.input[s.pos])], pos := s.pos + 1)
    case Printing(v) => s.(pcs := s.pcs[t := Writing(v)], log := s.log + [(t, v)])
    case Writing(v) => s.(pcs := s.pcs[t := Reading], fds := Write(s.fds, c.wake(v), ACTIVATE))
    case Broadcasting(i) =>
      if i < c.n then s.(pcs := s.pcs[t := Broadcasting(i + 1)], fds := Write(s.fds, i, EXIT))
      else s.(pcs := s.pcs[t := Reading])
    case NotStarted => s
    case Exited => s
  }

  predicate Step(c: Config, s: State, l: Label, s': State) {
    match l
    case Main => MainEnabled(c, s) && s' == MainNext(c, s)
    case Thread(t) => ThreadEnabled(c, s, t) && s' == ThreadNext(c, s, t)
  }

  ghost predicate IsRun(c: Config, run: seq<State>, labels: seq<Label>) {
    && |run| == |labels| + 1
    && Init(c, run[0])
    && forall i :: 0 <= i < |labels| ==> Step(c, run[i], labels[i], run[i + 1])
  }

  // ----- what the log should be

  /** `CRem` is the remainder of division truncated towards zero. */
  lemma {:induction false} CRemTruncates(a: int, n: nat) returns (q: int)
    requires n > 0
    ensures a == q * n + CRem(a, n)
    ensures if a >= 0 then 0 <= CRem(a, n) < n && 0 <= q else -(n as int) < CRem(a, n) <= 0 && q <= 0
    decreases if a < 0 then -a else a
  {
    if a >= n {
      var p := CRemTruncates(a - n, n);
      q := p + 1;
    } else if a <= -(n as int) {
      var p := CRemTruncates(a + n, n);
      q := p - 1;
    } else {
      q := 0;
    }
  }

  lemma ResidueUnique(v: int, n: nat, q: int, r: int)
    requires n > 0 && v == q * n + r && 0 <= r < n
    ensures v % n == r
  {
    QuotientUnique(v, n, q, v / n);
  }

  /** Negative numbers are mapped to the mathematical, non-negative residue. */
  lemma TargetIsResidue(v: int, n: nat)
    requires n > 0
    ensures Target(v, n) == v % n
  {
    var q := CRemTruncates(v, n);
    if CRem(v, n) < 0 {
      ResidueUnique(v, n, q - 1, CRem(v, n) + n);
    } else {
      ResidueUnique(v, n, q, CRem(v, n));
    }
  }

  /** Thread 0 takes the first number; number k names the thread that takes number k + 1. */
  function Taker(c: Config, k: nat): nat
    requires k <= |c.input|
  {
    if k == 0 then 0 else c.wake(c.input[k - 1])
  }

  lemma ValidInRange(c: Config)
    requires c.Valid()
    ensures c.InRange()
  {
  }

  // ----- invariant

  /** Where the single permission to act is. */
  datatype Token = NotYet | In(t: nat) | Held(t: nat) | Ending(b: nat, upTo: nat) | Over

  /** Thread j has an exit message waiting, in hand, or acted upon. */
  predicate Leaving(s: State, j: nat)
    requires j < |s.pcs| == |s.fds|
  {
    || (s.pcs[j] == Reading && s.fds[j] == Open(EXIT))
    || (s.pcs[j] == Got(EXIT) && s.fds[j] == Open(0))
    || (s.pcs[j] == Exited && s.fds[j] in {Open(0), Closed})
  }

  predicate Idle(s: State, j: nat)
    requires j < |s.pcs| == |s.fds|
  {
    s.pcs[j] == Reading && s.fds[j] == Open(0)
  }

  /** The thread that holds the token has its number, its next number, or nothing left to read. */
  predicate Holding(c: Config, s: State, t: nat)
    requires t < |s.pcs| && s.pos <= |c.input|
  {
    match s.pcs[t]
    case Got(value) => value == ACTIVATE && t == Taker(c, s.pos) && |s.log| == s.pos
    case Scanning => t == Taker(c, s.pos) && |s.log| == s.pos
    case Printing(v) => s.pos >= 1 && v == c.input[s.pos - 1] && t == Taker(c, s.pos - 1) && |s.log| == s.pos - 1
    case Writing(v) => s.pos >= 1 && v == c.input[s.pos - 1] && |s.log| == s.pos
    case _ => false
  }

  predicate LogInv(c: Config, log: seq<(nat, int)>) {
    |log| <= |c.input| && forall k :: 0 <= k < |log| ==> log[k] == (Taker(c, k), c.input[k])
  }

  predicate GlobalInv(c: Config, s: State, k: Token) {
    && |s.pcs| == |s.fds| == c.n && s.pos <= |c.input|
    && LogInv(c, s.log)
    && (k == NotYet <==> s.main.Creating? || s.main.Activating?)
    && (s.main.Creating? || s.main.Closing? ==> s.main.i < c.n)
    && (s.main.Joining? ==> s.main.i <= c.n)
    && match k
       case NotYet => !s.eof && s.pos == 0 && s.log == []
       case In(t) => t < c.n && !s.eof && |s.log| == s.pos && t == Taker(c, s.pos)
       case Held(t) => t < c.n && !s.eof && Holding(c, s, t)
       case Ending(b, upTo) => b < c.n && upTo <= c.n && s.eof && |s.log| == s.pos == |c.input|
       case Over => s.eof && |s.log| == s.pos == |c.input|
  }

  /** Descriptors below this index have been closed by `main`. */
  function Joined(s: State): nat {
    if s.main.Joining? || s.main.Closing? then s.main.i else 0
  }

  predicate Busy(pc: ThreadPc) {
    pc.Scanning? || pc.Printing? || pc.Writing?
  }

  predicate ThreadInv(c: Config, s: State, k: Token, j: nat)
    requires j < |s.pcs| == |s.fds|
  {
    && (s.fds[j].Closed? <==> j < Joined(s))
    && (j < Joined(s) || s.main == Closing(j) ==> s.pcs[j].Exited?)
    && match k
       case NotYet =>
         if s.main.Creating? && j >= s.main.i then s.pcs[j] == NotStarted && s.fds[j] == Absent
         else Idle(s, j)
       case In(t) => s.pcs[j] == Reading && s.fds[j] == Open(if j == t then ACTIVATE else 0)
       case Held(t) => s.fds[j] == Open(0) && if j == t then s.pcs[j].Got? || Busy(s.pcs[j]) else s.pcs[j] == Reading
       case Ending(b, upTo) =>
         if j == b then s.pcs[j] == Broadcasting(upTo) && s.fds[j] == Open(if b < upTo then EXIT else 0)
         else if j < upTo then Leaving(s, j)
         else Idle(s, j)
       case Over => Leaving(s, j)
  }

  ghost predicate InvAt(c: Config, s: State, k: Token) {
    && c.InRange()
    && GlobalInv(c, s, k)
    && forall j :: 0 <= j < c.n ==> ThreadInv(c, s, k, j)
  }

  ghost predicate Inv(c: Config, s: State) {
    exists k: Token :: InvAt(c, s, k)
  }

  lemma InitInv(c: Config, s: State)
    requires c.InRange() && Init(c, s)
    ensures Inv(c, s)
  {
    assert InvAt(c, s, NotYet);
  }

  lemma CreateStep(c: Config, s: State, s': State)
    requires InvAt(c, s, NotYet) && s.main.Creating? && Step(c, s, Main, s')
    ensures Inv(c, s')
  {
    forall j | 0 <= j < c.n ensures ThreadInv(c, s', NotYet, j) {
      assert ThreadInv(c, s, NotYet, j);
    }
    assert InvAt(c, s', NotYet);
  }

  lemma ActivateStep(c: Config, s: State, s': State)
    requires InvAt(c, s, NotYet) && s.main.Activating? && Step(c, s, Main, s')
    ensures Inv(c, s')
  {
    assert ThreadInv(c, s, NotYet, 0);
    forall j | 0 <= j < c.n ensures ThreadInv(c, s', In(0), j) {
      assert ThreadInv(c, s, NotYet, j);
    }
    assert InvAt(c, s', In(0));
  }

  lemma WindDownStep(c: Config, s: State, k: Token, s': State)
    requires InvAt(c, s, k) && k != NotYet && Step(c, s, Main, s')
    ensures Inv(c, s')
  {
    assert s.main.i < c.n && ThreadInv(c, s, k, s.main.i);
    forall j | 0 <= j < c.n ensures ThreadInv(c, s', k, j) {
      assert ThreadInv(c, s, k, j);
    }
    assert InvAt(c, s', k);
  }

  /** The thread whose counter holds the token reads it. */
  lemma WakeStep(c: Config, s: State, t: nat, s': State)
    requires InvAt(c, s, In(t)) && Step(c, s, Thread(t), s')
    ensures Inv(c, s')
  {
    assert ThreadInv(c, s, In(t), t);
    forall j | 0 <= j < c.n ensures ThreadInv(c, s', Held(t), j) {
      assert ThreadInv(c, s, In(t), j);
    }
    assert InvAt(c, s', Held(t));
  }

  lemma HolderStep(c: Config, s: State, t: nat, s': State)
    requires InvAt(c, s, Held(t)) && Step(c, s, Thread(t), s')
    requires s.pcs[t].Got? || (s.pcs[t].Scanning? && s.pos < |c.input|)
    ensures Inv(c, s')
  {
    assert ThreadInv(c, s, Held(t), t);
    forall j | 0 <= j < c.n ensures ThreadInv(c, s', Held(t), j) {
      assert ThreadInv(c, s, Held(t), j);
    }
    assert InvAt(c, s', Held(t));
  }

  lemma LogGrows(c: Config, log: seq<(nat, int)>)
    requires LogInv(c, log) && |log| < |c.input|
    ensures LogInv(c, log + [(Taker(c, |log|), c.input[|log|])])
  {
  }

  lemma PrintStep(c: Config, s: State, t: nat, s': State)
    requires InvAt(c, s, Held(t)) && Step(c, s, Thread(t), s') && s.pcs[t].Printing?
    ensures Inv(c, s')
  {
    LogGrows(c, s.log);
    forall j | 0 <= j < c.n ensures ThreadInv(c, s', Held(t), j) {
      assert ThreadInv(c, s, Held(t), j);
    }
    assert InvAt(c, s', Held(t));
  }

  lemma HandOverStep(c: Config, s: State, t: nat, s': State)
    requires InvAt(c, s, Held(t)) && Step(c, s, Thread(t), s') && s.pcs[t].Writing?
    ensures Inv(c, s')
  {
    var u := c.wake(s.pcs[t].v);
    assert ThreadInv(c, s, Held(t), t) && ThreadInv(c, s, Held(t), u);
    forall j | 0 <= j < c.n ensures ThreadInv(c, s', In(u), j) {
      assert ThreadInv(c, s, Held(t), j);
    }
    assert InvAt(c, s', In(u));
  }

  lemma EndOfInputStep(c: Config, s: State, t: nat, s': State)
    requires InvAt(c, s, Held(t)) && Step(c, s, Thread(t), s')
    requires s.pcs[t].Scanning? && s.pos == |c.input|
    ensures Inv(c, s')
  {
    assert ThreadInv(c, s, Held(t), t);
    forall j | 0 <= j < c.n ensures ThreadInv(c, s', Ending(t, 0), j) {
      assert ThreadInv(c, s, Held(t), j);
    }
    assert InvAt(c, s', Ending(t, 0));
  }

  lemma BroadcastStep(c: Config, s: State, k: Token, s': State)
    requires InvAt(c, s, k) && k.Ending? && Step(c, s, Thread(k.b), s')
    ensures Inv(c, s')
  {
    var k' := if k.upTo < c.n then Ending(k.b, k.upTo + 1) else Over;
    assert ThreadInv(c, s, k, k.b);
    if k.upTo < c.n {
      assert ThreadInv(c, s, k, k.upTo);
    }
    forall j | 0 <= j < c.n ensures ThreadInv(c, s', k', j) {
      assert ThreadInv(c, s, k, j);
    }
    assert InvAt(c, s', k');
  }

  lemma LeavingStep(c: Config, s: State, k: Token, t: nat, s': State)
    requires InvAt(c, s, k) && ((k.Ending? && k.b != t) || k.Over?) && Step(c, s, Thread(t), s')
    ensures Inv(c, s')
  {
    assert ThreadInv(c, s, k, t);
    forall j | 0 <= j < c.n ensures ThreadInv(c, s', k, j) {
      assert ThreadInv(c, s, k, j);
    }
    assert InvAt(c, s', k);
  }

  lemma MainStep(c: Config, s: State, s': State)
    requires Inv(c, s) && Step(c, s, Main, s')
    ensures Inv(c, s')
  {
    var k :| InvAt(c, s, k);
    if k != NotYet {
      WindDownStep(c, s, k, s');
    } else if s.main.Creating? {
      CreateStep(c, s, s');
    } else {
      ActivateStep(c, s, s');
    }
  }

  lemma ThreadStep(c: Config, s: State, t: nat, s': State)
    requires Inv(c, s) && Step(c, s, Thread(t), s')
    ensures Inv(c, s')
  {
    var k :| InvAt(c, s, k);
    assert ThreadInv(c, s, k, t);
    if k.In? {
      WakeStep(c, s, t, s');
    } else if k.Ending? && k.b == t {
      BroadcastStep(c, s, k, s');
    } else if !k.Held? {
      LeavingStep(c, s, k, t, s');
    } else if s.pcs[t].Writing? {
      HandOverStep(c, s, t, s');
    } else if s.pcs[t].Printing? {
      PrintStep(c, s, t, s');
    } else if s.pcs[t].Scanning? && s.pos == |c.input| {
      EndOfInputStep(c, s, t, s');
    } else {
      HolderStep(c, s, t, s');
    }
  }

  lemma {:induction false} RunInv(c: Config, run: seq<State>, labels: seq<Label>, i: nat)
    requires c.InRange() && IsRun(c, run, labels) && i < |run|
    ensures Inv(c, run[i])
    decreases i
  {
    if i == 0 {
      InitInv(c, run[0]);
    } else {
      RunInv(c, run, labels, i - 1);
      match labels[i - 1]
      case Main => MainStep(c, run[i - 1], run[i]);
      case Thread(t) => ThreadStep(c, run[i - 1], t, run[i]);
    }
  }

  // ----- safety

  /** Between reading its activation and handing on the token, or ending the run. */
  predicate Active(pc: ThreadPc) {
    pc == Got(ACTIVATE) || Busy(pc) || pc.Broadcasting?
  }

  /** No two threads are ever active together. */
  lemma MutualExclusion(c: Config, run: seq<State>, labels: seq<Label>, i: nat, t: nat, u: nat)
    requires c.InRange() && IsRun(c, run, labels) && i < |run| && t < |run[i].pcs| && u < |run[i].pcs|
    requires Active(run[i].pcs[t]) && Active(run[i].pcs[u])
    ensures t == u
  {
    RunInv(c, run, labels, i);
    var k :| InvAt(c, run[i], k);
    assert ThreadInv(c, run[i], k, t) && ThreadInv(c, run[i], k, u);
  }

  /** Messages never add up in a counter: a reader gets exactly 1 or exactly 2, and leaves none unread. */
  lemma CountersKeepMessagesApart(c: Config, run: seq<State>, labels: seq<Label>, i: nat, t: nat)
    requires c.InRange() && IsRun(c, run, labels) && i < |run| && t < c.n
    ensures |run[i].fds| == |run[i].pcs| == c.n
    ensures run[i].fds[t].Open? ==> run[i].fds[t].count in {0, 1, 2}
    ensures run[i].pcs[t].Got? ==> run[i].pcs[t].value in {1, 2}
    ensures run[i].pcs[t].Exited? ==> run[i].fds[t] in {Open(0), Closed}
  {
    RunInv(c, run, labels, i);
    var k :| InvAt(c, run[i], k);
    assert ThreadInv(c, run[i], k, t);
  }

  /** Every descriptor a thread is about to read or write is open, also while `main` closes others. */
  lemma NoUseAfterClose(c: Config, run: seq<State>, labels: seq<Label>, i: nat, t: nat)
    requires c.InRange() && IsRun(c, run, labels) && i < |run| && t < c.n
    ensures |run[i].fds| == |run[i].pcs| == c.n
    ensures run[i].pcs[t].Reading? ==> run[i].fds[t].Open?
    ensures run[i].pcs[t].Writing? ==>
              c.wake(run[i].pcs[t].v) < c.n && run[i].fds[c.wake(run[i].pcs[t].v)].Open?
    ensures run[i].pcs[t].Broadcasting? && run[i].pcs[t].i < c.n ==> run[i].fds[run[i].pcs[t].i].Open?
    ensures run[i].main.Activating? ==> run[i].fds[0].Open?
  {
    RunInv(c, run, labels, i);
    var k :| InvAt(c, run[i], k);
    var s := run[i];
    assert ThreadInv(c, s, k, t) && ThreadInv(c, s, k, 0);
    if s.pcs[t].Writing? {
      assert ThreadInv(c, s, k, c.wake(s.pcs[t].v));
    } else if s.pcs[t].Broadcasting? && s.pcs[t].i < c.n {
      assert ThreadInv(c, s, k, s.pcs[t].i);
    }
  }

  /**
   * The log lists the input in order.  The first number is taken by thread 0, every other one by
   * the thread its predecessor names: the mathematical residue modulo n, also of negative numbers.
   */
  lemma LogIsPrescribed(c: Config, run: seq<State>, labels: seq<Label>, i: nat)
    requires c.Valid() && IsRun(c, run, labels) && i < |run|
    ensures |run[i].log| <= |c.input|
    ensures forall k :: 0 <= k < |run[i].log| ==>
      run[i].log[k] == (if k == 0 then 0 else c.input[k - 1] % c.n, c.input[k])
  {
    ValidInRange(c);
    RunInv(c, run, labels, i);
    var token :| InvAt(c, run[i], token);
    forall k | 0 <= k < |run[i].log|
      ensures run[i].log[k] == (if k == 0 then 0 else c.input[k - 1] % c.n, c.input[k])
    {
      if k > 0 {
        TargetIsResidue(c.input[k - 1], c.n);
      }
    }
  }

  /**
   * A thread blocks only on a counter that is 0, and `main` only on a thread that has not exited; what
   * `main` has joined, and only that, is closed.
   */
  lemma PossibleSteps(c: Config, run: seq<State>, labels: seq<Label>, i: nat, t: nat)
    requires c.InRange() && IsRun(c, run, labels) && i < |run| && t < c.n
    ensures |run[i].fds| == |run[i].pcs| == c.n
    ensures (exists s': State :: Step(c, run[i], Thread(t), s')) <==>
            !run[i].pcs[t].NotStarted? && !run[i].pcs[t].Exited?
            && (run[i].pcs[t].Reading? ==> run[i].fds[t] != Open(0))
    ensures run[i].main == Joining(t) ==>
              ((exists s': State :: Step(c, run[i], Main, s')) <==> run[i].pcs[t].Exited?)
    ensures run[i].main.Joining? || run[i].main.Closing? ==> (run[i].fds[t].Closed? <==> t < run[i].main.i)
    ensures run[i].main.Creating? || run[i].main.Activating? || run[i].main.Closing? ==>
              exists s': State :: Step(c, run[i], Main, s')
  {
    RunInv(c, run, labels, i);
    var s := run[i];
    var k :| InvAt(c, s, k);
    assert ThreadInv(c, s, k, t);
    assert MainEnabled(c, s) ==> Step(c, s, Main, MainNext(c, s));
    assert ThreadEnabled(c, s, t) ==> Step(c, s, Thread(t), ThreadNext(c, s, t));
  }

  /** A thread that has read 2 exits, and one that has read 1 goes on to the input. */
  lemma MessageDecides(c: Config, run: seq<State>, labels: seq<Label>, i: nat, t: nat)
    requires c.InRange() && IsRun(c, run, labels) && i < |labels| && t < c.n
    requires labels[i] == Thread(t) && |run[i].pcs| == c.n && run[i].pcs[t].Got?
    ensures |run[i + 1].pcs| == c.n
    ensures run[i + 1].pcs[t] == if run[i].pcs[t].value == 2 then Exited else Scanning
  {
    assert Step(c, run[i], labels[i], run[i + 1]);
  }

  // ----- termination

  function Weight(c: Config, pc: ThreadPc): nat {
    match pc
    case NotStarted => 5
    case Reading => 4
    case Got(_) => 3
    case Scanning => 2
    case Printing(_) => 7
    case Writing(_) => 6
    case Broadcasting(i) => 5 + if i < c.n then c.n - i else 0
    case Exited => 0
  }

  function Weights(c: Config, pcs: seq<ThreadPc>): seq<nat> {
    seq(|pcs|, t requires 0 <= t < |pcs| => Weight(c, pcs[t]))
  }

  lemma WeightUpdate(c: Config, pcs: seq<ThreadPc>, t: nat, pc: ThreadPc)
    requires t < |pcs|
    ensures Sum(Weights(c, pcs[t := pc])) == Sum(Weights(c, pcs)) - Weight(c, pcs[t]) + Weight(c, pc)
  {
    SumUpdate(Weights(c, pcs), t, Weight(c, pc));
    assert Weights(c, pcs[t := pc]) == Weights(c, pcs)[t := Weight(c, pc)];
  }

  function MainLeft(c: Config, m: MainPc): int {
    match m
    case Creating(i) => 2 * c.n + 2 + c.n - i
    case Activating => 2 * c.n + 1
    case Joining(i) => 2 * (c.n - i)
    case Closing(i) => 2 * (c.n - i) - 1
  }

  /** An upper bound on the steps still possible. */
  function Measure(c: Config, s: State): int {
    10 * (|c.input| - s.pos) + Sum(Weights(c, s.pcs)) + (if s.eof then 0 else c.n + 10) + MainLeft(c, s.main)
  }

  /** The end of the input is met once, and a broadcast goes once over all threads. */
  lemma ThreadOnce(c: Config, s: State, t: nat)
    requires Inv(c, s) && t < |s.pcs|
    ensures s.pcs[t].Scanning? ==> !s.eof
    ensures s.pcs[t].Broadcasting? ==> s.pcs[t].i <= c.n
  {
    var k :| InvAt(c, s, k);
    assert ThreadInv(c, s, k, t);
  }

  lemma MainMeasure(c: Config, s: State, s': State)
    requires Inv(c, s) && Step(c, s, Main, s')
    ensures Measure(c, s') < Measure(c, s)
  {
    var k :| InvAt(c, s, k);
    if s.main.Creating? {
      assert ThreadInv(c, s, k, s.main.i);
      WeightUpdate(c, s.pcs, s.main.i, Reading);
    }
  }

  lemma ThreadMeasure(c: Config, s: State, t: nat, s': State)
    requires Step(c, s, Thread(t), s')
    requires s.pcs[t].Scanning? ==> !s.eof
    requires s.pcs[t].Broadcasting? ==> s.pcs[t].i <= c.n
    ensures Measure(c, s') < Measure(c, s)
  {
    WeightUpdate(c, s.pcs, t, s'.pcs[t]);
    assert s'.pcs == s.pcs[t := s'.pcs[t]];
  }

  lemma StepMeasure(c: Config, s: State, l: Label, s': State)
    requires Inv(c, s) && Step(c, s, l, s')
    ensures Measure(c, s') < Measure(c, s)
  {
    match l
    case Main => MainMeasure(c, s, s');
    case Thread(t) =>
      ThreadOnce(c, s, t);
      ThreadMeasure(c, s, t, s');
  }

  lemma {:induction false} RunMeasure(c: Config, run: seq<State>, labels: seq<Label>, i: nat)
    requires c.InRange() && IsRun(c, run, labels) && i < |run|
    ensures i + Measure(c, run[i]) <= Measure(c, run[0])
  {
    if i > 0 {
      RunMeasure(c, run, labels, i - 1);
      RunInv(c, run, labels, i - 1);
      StepMeasure(c, run[i - 1], labels[i - 1], run[i]);
    }
  }

  ghost predicate Stuck(c: Config, s: State) {
    forall l: Label, s': State :: !Step(c, s, l, s')
  }

  /** All threads have left, `main` has joined them all and closed every descriptor. */
  predicate AllDone(c: Config, s: State) {
    && |s.pcs| == |s.fds| == c.n
    && s.main == Joining(c.n)
    && forall j :: 0 <= j < c.n ==> s.pcs[j] == Exited && s.fds[j] == Closed
  }

  lemma ThreadMoves(c: Config, s: State, k: Token, t: nat)
    requires InvAt(c, s, k) && t < c.n
    requires k == In(t) || k == Held(t) || (k.Ending? && k.b == t) || (k.Over? && !s.pcs[t].Exited?)
    ensures !Stuck(c, s)
  {
    assert ThreadInv(c, s, k, t);
    assert Step(c, s, Thread(t), ThreadNext(c, s, t));
  }

  /** Whoever has the token, or an exit message, can take a step. */
  lemma SomebodyMoves(c: Config, s: State)
    requires Inv(c, s) && !AllDone(c, s)
    ensures !Stuck(c, s)
  {
    var k :| InvAt(c, s, k);
    assert MainEnabled(c, s) ==> Step(c, s, Main, MainNext(c, s));
    if k.In? || k.Held? {
      ThreadMoves(c, s, k, k.t);
    } else if k.Ending? {
      ThreadMoves(c, s, k, k.b);
    } else if k.Over? && s.main.Joining? {
      if s.main.i < c.n && !s.pcs[s.main.i].Exited? {
        ThreadMoves(c, s, k, s.main.i);
      } else if s.main.i == c.n {
        forall j | 0 <= j < c.n ensures s.pcs[j] == Exited && s.fds[j] == Closed {
          assert ThreadInv(c, s, k, j);
        }
      }
    }
  }

  /**
   * Every run is finite, and one that cannot go on has written the whole prescribed log,
   * has all n threads returned and all descriptors closed.
   */
  lemma AlwaysFinishes(c: Config, run: seq<State>, labels: seq<Label>)
    requires c.InRange() && IsRun(c, run, labels)
    ensures |labels| <= 10 * |c.input| + 9 * c.n + 12
    ensures Stuck(c, run[|labels|]) <==> AllDone(c, run[|labels|])
    ensures AllDone(c, run[|labels|]) ==> |run[|labels|].log| == |c.input|
  {
    var n := |labels|;
    RunInv(c, run, labels, n);
    var k :| InvAt(c, run[n], k);
    RunMeasure(c, run, labels, n);
    SumConstant(c.n, 5);
    assert Weights(c, run[0].pcs) == seq(c.n, _ => 5);
    assert ThreadInv(c, run[n], k, 0);
    if AllDone(c, run[n]) {
      forall l: Label, s': State ensures !Step(c, run[n], l, s') {
      }
    } else {
      SomebodyMoves(c, run[n]);
    }
  }

  /** Every run goes on to a complete one. */
  lemma {:induction false} Complete(c: Config, run: seq<State>, labels: seq<Label>)
    returns (run': seq<State>, labels': seq<Label>)
    requires c.InRange() && IsRun(c, run, labels)
    ensures IsRun(c, run', labels') && run <= run' && AllDone(c, run'[|labels'|])
    decreases 10 * |c.input| + 9 * c.n + 12 - |labels|
  {
    var s := run[|labels|];
    AlwaysFinishes(c, run, labels);
    if Stuck(c, s) {
      return run, labels;
    }
    var l: Label, s': State :| Step(c, s, l, s');
    AlwaysFinishes(c, run + [s'], labels + [l]);
    run', labels' := Complete(c, run + [s'], labels + [l]);
  }

  /** For every number of threads and every input there is a run that ends, with the whole input logged. */
  lemma CanFinish(n: nat, input: seq<int>) returns (c: Config, run: seq<State>, labels: seq<Label>)
    requires n >= 1
    ensures c.n == n && c.input == input && c.Valid() && forall v :: c.wake(v) == v % n
    ensures IsRun(c, run, labels) && AllDone(c, run[|labels|]) && |run[|labels|].log| == |input|
  {
    c := Config(n, input, v => Target(v, n));
    forall v ensures c.wake(v) == v % n {
      TargetIsResidue(v, n);
    }
    var start := State(Creating(0), seq(n, _ => NotStarted), seq(n, _ => Absent), 0, false, []);
    run, labels := Complete(c, [start], []);
    AlwaysFinishes(c, run, labels);
  }
}
