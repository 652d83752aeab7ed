/**
 * The one-slot queue between a prime-producing thread and the printing main thread,
 * src/apps/sem23/task22_2.c:40-61, 83-93 and 106-109.
 *
 * Both directions share one condition variable.  A step is one access to the shared queue;
 * `pthread_cond_wait` releases the mutex and blocks in one step, a woken thread contends for
 * the mutex like any other, and a waiting thread may wake up spuriously at any time.
 */
module PrimeQueue {
  import opened Powers
  import opened Primes

  datatype Owner = Free | Producer | Consumer

  datatype ProducerPc =
    | Scan | PLock | PTest | PWaiting | SetExists | SetValue | PSignal | PUnlock

  datatype ConsumerPc =
    | Loop | CLock | CTest | CWaiting | ClearExists | ReadValue | CSignal | CUnlock | Print | Finished

  /** The input, and the answers of `is_prime`, which Primes.IsPrime shows to be those of Prime. */
  datatype Config = Config(base: nat, count: nat, isPrime: nat -> bool) {
    ghost predicate Valid() {
      base < WORD64 && count < WORD64 && forall v :: 0 <= v < WORD64 ==> (isPrime(v) <==> Prime(v))
    }
  }

  /**
   * Shared: mutex owner, `full` (the field `exists`), `slot`.  Producer: `value`.  Consumer: `i`, `got`.
   * History: values written to and read from the slot, values printed, candidates passed.
   */
  datatype State = State(
    owner: Owner, full: bool, slot: nat,
    ppc: ProducerPc, value: nat,
    cpc: ConsumerPc, i: nat, got: nat,
    released: seq<nat>, acquired: seq<nat>, printed: seq<nat>, scanned: nat)

  datatype Label = Produce | Consume | SpuriousProducer | SpuriousConsumer

  predicate Init(c: Config, s: State) {
    && c.base < WORD64
    && s == State(Free, false, 0, Scan, c.base, Loop, 0, s.got, [], [], [], 0)
  }

  /** `value += 1` on a uint64_t. */
  function Succ(v: nat): nat {
    if v + 1 == WORD64 then 0 else v + 1
  }

  /** A step of `thread_func` or `safe_queue_release`; the producer never returns. */
  function ProducerNext(c: Config, s: State): State {
    match s.ppc
    case Scan =>
      if c.isPrime(s.value) then s.(ppc := PLock) else s.(value := Succ(s.value), scanned := s.scanned + 1)
    case PLock => s.(owner := Producer, ppc := PTest)
    case PTest => if s.full then s.(owner := Free, ppc := PWaiting) else s.(ppc := SetExists)
    case PWaiting => s
    case SetExists => s.(full := true, ppc := SetValue)
    case SetValue => s.(slot := s.value, released := s.released + [s.value], ppc := PSignal)
    case PSignal => s.(cpc := if s.cpc.CWaiting? then CLock else s.cpc, ppc := PUnlock)
    case PUnlock => s.(owner := Free, ppc := Scan, value := Succ(s.value), scanned := s.scanned + 1)
  }

  predicate ProducerEnabled(s: State) {
    !s.ppc.PWaiting? && (s.ppc.PLock? ==> s.owner.Free?)
  }

  /** A step of the loop in `main` or of `safe_queue_acquire`. */
  function ConsumerNext(c: Config, s: State): State {
    match s.cpc
    case Loop => s.(cpc := if s.i < c.count then CLock else Finished)
    case CLock => s.(owner := Consumer, cpc := CTest)
    case CTest => if !s.full then s.(owner := Free, cpc := CWaiting) else s.(cpc := ClearExists)
    case CWaiting => s
    case ClearExists => s.(full := false, cpc := ReadValue)
    case ReadValue => s.(got := s.slot, acquired := s.acquired + [s.slot], cpc := CSignal)
    case CSignal => s.(ppc := if s.ppc.PWaiting? then PLock else s.ppc, cpc := CUnlock)
    case CUnlock => s.(owner := Free, cpc := Print)
    case Print => s.(printed := s.printed + [s.got], i := s.i + 1, cpc := Loop)
    case Finished => s
  }

  predicate ConsumerEnabled(s: State) {
    !s.cpc.CWaiting? && !s.cpc.Finished? && (s.cpc.CLock? ==> s.owner.Free?)
  }

  predicate Step(c: Config, s: State, l: Label, s': State) {
    match l
    case Produce => ProducerEnabled(s) && s' == ProducerNext(c, s)
    case Consume => ConsumerEnabled(s) && s' == ConsumerNext(c, s)
    case SpuriousProducer => s.ppc.PWaiting? && s' == s.(ppc := PLock)
    case SpuriousConsumer => s.cpc.CWaiting? && s' == s.(cpc := CLock)
  }

  predicate IsSpurious(l: Label) {
    l.SpuriousProducer? || l.SpuriousConsumer?
  }

  ghost predicate IsRun(c: Config, run: seq<State>, labels: seq<Label>) {
    && |run| == |labels| + 1
    && Init(c, run[0])
    && forall i :: 0 <= i < |labels| ==> Step(c, run[i], labels[i], run[i + 1])
  }

  // ----- the sequence of primes offered

  /** The word n increments after base. */
  function Nth(base: nat, n: nat): (v: nat)
    requires base < WORD64
    ensures v < WORD64 && (base + n < WORD64 ==> v == base + n)
  {
    if n == 0 then base else Succ(Nth(base, n - 1))
  }

  /** What is_prime accepts among the first n words from base on, going on from 0 after 2^64 - 1. */
  function Offers(c: Config, n: nat): seq<nat>
    requires c.base < WORD64
  {
    if n == 0 then []
    else
      var v := Nth(c.base, n - 1);
      Offers(c, n - 1) + if c.isPrime(v) then [v] else []
  }

  /** All primes from base on that fit in 64 bits. */
  function PrimesLeft(c: Config): seq<nat>
    requires c.base < WORD64
  {
    Offers(c, WORD64 - c.base)
  }

  lemma {:induction false} OffersPrefix(c: Config, n: nat, m: nat)
    requires c.base < WORD64 && n <= m
    ensures Offers(c, n) <= Offers(c, m)
  {
    if n < m {
      OffersPrefix(c, n, m - 1);
    }
  }

  /** The first accepted words from base on: increasing, at least base, and none left out. */
  predicate FirstAccepted(c: Config, out: seq<nat>) {
    && (forall i, j :: 0 <= i < j < |out| ==> out[i] < out[j])
    && (forall i :: 0 <= i < |out| ==> c.isPrime(out[i]) && c.base <= out[i] < WORD64)
    && forall i, q: nat :: 0 <= i < |out| && c.base <= q <= out[i] && c.isPrime(q) ==> q in out
  }

  /** The first primes from base on, in increasing order. */
  ghost predicate FirstPrimes(base: nat, out: seq<nat>) {
    && (forall i, j :: 0 <= i < j < |out| ==> out[i] < out[j])
    && (forall i :: 0 <= i < |out| ==> Prime(out[i]) && base <= out[i] < WORD64)
    && forall i, q: nat :: 0 <= i < |out| && base <= q <= out[i] && Prime(q) ==> q in out
  }

  lemma FirstAcceptedArePrimes(c: Config, out: seq<nat>)
    requires c.Valid()
    ensures FirstAccepted(c, out) <==> FirstPrimes(c.base, out)
  {
  }

  lemma {:induction false} OffersBeforeWrap(c: Config, n: nat)
    requires c.base < WORD64 && c.base + n <= WORD64
    ensures FirstAccepted(c, Offers(c, n))
    ensures forall q: nat :: q in Offers(c, n) <==> c.isPrime(q) && c.base <= q < c.base + n
  {
    if n > 0 {
      OffersBeforeWrap(c, n - 1);
    }
  }

  lemma FirstAcceptedPrefix(c: Config, out: seq<nat>, prefix: seq<nat>)
    requires FirstAccepted(c, out) && prefix <= out
    ensures FirstAccepted(c, prefix)
  {
    forall i, q: nat | 0 <= i < |prefix| && c.base <= q <= prefix[i] && c.isPrime(q) ensures q in prefix {
      assert q <= out[i];
      var j :| 0 <= j < |out| && out[j] == q;
    }
  }

  /** After 2^64 - 1 the producer goes on with 0, 1 and then offers 2. */
  lemma OffersAfterWrap(c: Config)
    requires c.Valid()
    ensures c.isPrime(2)
    ensures Offers(c, WORD64 - c.base + 2) == PrimesLeft(c)
    ensures Offers(c, WORD64 - c.base + 3) == PrimesLeft(c) + [2]
  {
    var n := WORD64 - c.base;
    assert Nth(c.base, n - 1) == WORD64 - 1 && Nth(c.base, n) == 0;
    assert Nth(c.base, n + 1) == 1 && Nth(c.base, n + 2) == 2;
    assert !Prime(0) && !Prime(1) && Prime(2);
    assert Offers(c, n + 1) == Offers(c, n);
    assert Offers(c, n + 2) == Offers(c, n + 1);
  }

  /** Of two stretches of offers from the same base, the shorter begins the longer. */
  lemma TakenFromFront(c: Config, n: nat, m: nat, out: seq<nat>)
    requires c.base < WORD64 && out <= Offers(c, n) && |out| <= |Offers(c, m)|
    ensures out <= Offers(c, m)
  {
    if n <= m {
      OffersPrefix(c, n, m);
    } else {
      OffersPrefix(c, m, n);
    }
  }

  lemma PrimesLeftAreFirst(c: Config)
    requires c.Valid()
    ensures FirstAccepted(c, PrimesLeft(c))
    ensures c.base <= 2 ==> 2 in PrimesLeft(c)
  {
    OffersAfterWrap(c);
    OffersBeforeWrap(c, WORD64 - c.base);
  }

  /** One value more than there are primes left: the value is 2, and out of order. */
  lemma TooMany(c: Config, n: nat, out: seq<nat>)
    requires c.Valid() && out <= Offers(c, n)
    requires |out| > |PrimesLeft(c)|
    ensures !FirstAccepted(c, out)
  {
    var all := PrimesLeft(c);
    PrimesLeftAreFirst(c);
    OffersAfterWrap(c);
    TakenFromFront(c, n, WORD64 - c.base + 3, out[..|all| + 1]);
    assert out[|all|] == 2 && out[..|all|] == all;
    if c.base <= 2 {
      var i :| 0 <= i < |all| && all[i] == 2;
      assert out[i] == 2;
    }
  }

  /** What is taken from the front of the offers is right exactly while primes below 2^64 last. */
  lemma PrefixIsFirstAccepted(c: Config, n: nat, out: seq<nat>)
    requires c.Valid() && out <= Offers(c, n)
    ensures FirstAccepted(c, out) <==> |out| <= |PrimesLeft(c)|
  {
    if |out| <= |PrimesLeft(c)| {
      TakenFromFront(c, n, WORD64 - c.base, out);
      PrimesLeftAreFirst(c);
      FirstAcceptedPrefix(c, PrimesLeft(c), out);
    } else {
      TooMany(c, n, out);
    }
  }

  // ----- invariant

  /** The mutex is held exactly between a successful lock and the matching wait or unlock. */
  predicate MutexInv(s: State) {
    && (s.owner.Producer? <==> s.ppc in {PTest, SetExists, SetValue, PSignal, PUnlock})
    && (s.owner.Consumer? <==> s.cpc in {CTest, ClearExists, ReadValue, CSignal, CUnlock})
    && (s.ppc == SetExists ==> !s.full)
    && (s.ppc in {SetValue, PSignal, PUnlock} ==> s.full)
    && (s.cpc == ClearExists ==> s.full)
    && (s.cpc in {ReadValue, CSignal, CUnlock} ==> !s.full)
  }

  /** The value handed over but not yet taken. */
  function Pending(s: State): seq<nat> {
    if (s.full && s.ppc != SetValue) || s.cpc == ReadValue then [s.slot] else []
  }

  /** Released history = acquired history + slot content. */
  predicate FlowInv(c: Config, s: State) {
    && s.released == s.acquired + Pending(s)
    && s.acquired == s.printed + (if s.cpc in {CSignal, CUnlock, Print} then [s.got] else [])
    && s.i == |s.printed| <= c.count
    && (s.cpc !in {Loop, Finished} ==> s.i < c.count)
    && (s.cpc == Finished ==> s.i == c.count)
  }

  predicate ScanInv(c: Config, s: State) {
    && c.base < WORD64
    && s.value == Nth(c.base, s.scanned)
    && (s.ppc != Scan ==> c.isPrime(s.value))
    && s.released == Offers(c, s.scanned + if s.ppc in {PSignal, PUnlock} then 1 else 0)
  }

  /** An unsignalled waiter is entitled to wait, or the signal is on its way. */
  predicate WakeInv(s: State) {
    && (s.cpc == CWaiting ==> !s.full || s.ppc in {SetValue, PSignal})
    && (s.ppc == PWaiting ==> s.full || s.cpc in {ReadValue, CSignal})
  }

  predicate Inv(c: Config, s: State) {
    MutexInv(s) && FlowInv(c, s) && ScanInv(c, s) && WakeInv(s)
  }

  lemma StepLocks(c: Config, s: State, l: Label, s': State)
    requires MutexInv(s) && WakeInv(s) && Step(c, s, l, s')
    ensures MutexInv(s') && WakeInv(s')
  {
  }

  lemma StepFlow(c: Config, s: State, l: Label, s': State)
    requires MutexInv(s) && FlowInv(c, s) && Step(c, s, l, s')
    ensures FlowInv(c, s')
  {
  }

  lemma ProducerScan(c: Config, s: State)
    requires ScanInv(c, s)
    ensures ScanInv(c, ProducerNext(c, s))
  {
    if s.ppc == SetValue || s.ppc == Scan {
      assert Offers(c, s.scanned + 1) == Offers(c, s.scanned) + if c.isPrime(s.value) then [s.value] else [];
    }
  }

  /** Waking the producer changes none of what it has scanned. */
  lemma OthersScan(c: Config, s: State, l: Label, s': State)
    requires Step(c, s, l, s') && !l.Produce?
    ensures s'.value == s.value && s'.scanned == s.scanned && s'.released == s.released
    ensures s'.ppc == s.ppc || (s.ppc == PWaiting && s'.ppc == PLock)
  {
  }

  lemma StepScan(c: Config, s: State, l: Label, s': State)
    requires ScanInv(c, s) && Step(c, s, l, s')
    ensures ScanInv(c, s')
  {
    if l.Produce? {
      ProducerScan(c, s);
    } else {
      OthersScan(c, s, l, s');
    }
  }

  lemma {:induction false} RunInv(c: Config, run: seq<State>, labels: seq<Label>, i: nat)
    requires IsRun(c, run, labels) && i < |run|
    ensures Inv(c, run[i])
  {
    if i > 0 {
      RunInv(c, run, labels, i - 1);
      StepLocks(c, run[i - 1], labels[i - 1], run[i]);
      StepFlow(c, run[i - 1], labels[i - 1], run[i]);
      StepScan(c, run[i - 1], labels[i - 1], run[i]);
    }
  }

  // ----- safety

  /**
   * In every reachable state the values printed so far are the first primes from base on,
   * exactly as long as there were that many primes below 2^64; main stops after count values.
   */
  lemma PrintsFirstPrimes(c: Config, run: seq<State>, labels: seq<Label>, i: nat)
    requires c.Valid() && IsRun(c, run, labels) && i < |run|
    ensures FirstPrimes(c.base, run[i].printed) <==> |run[i].printed| <= |PrimesLeft(c)|
    ensures run[i].printed <= Offers(c, run[i].scanned + 1)
    ensures |run[i].printed| <= c.count && (run[i].cpc.Finished? ==> |run[i].printed| == c.count)
  {
    RunInv(c, run, labels, i);
    var s := run[i];
    OffersPrefix(c, s.scanned, s.scanned + 1);
    assert s.printed <= s.acquired <= s.released;
    PrefixIsFirstAccepted(c, s.scanned + 1, s.printed);
    FirstAcceptedArePrimes(c, s.printed);
  }

  /** Values pass through the slot in order: none is lost, doubled or reordered. */
  lemma SlotIsFifo(c: Config, run: seq<State>, labels: seq<Label>, i: nat)
    requires IsRun(c, run, labels) && i < |run| && run[i].owner.Free?
    ensures run[i].released == run[i].acquired + if run[i].full then [run[i].slot] else []
  {
    RunInv(c, run, labels, i);
  }

  /** Each thread holds the mutex exactly from its lock to its wait or unlock, and prints without it. */
  lemma MutexHolder(c: Config, run: seq<State>, labels: seq<Label>, i: nat)
    requires IsRun(c, run, labels) && i < |run|
    ensures run[i].owner.Producer? <==> run[i].ppc in {PTest, SetExists, SetValue, PSignal, PUnlock}
    ensures run[i].owner.Consumer? <==> run[i].cpc in {CTest, ClearExists, ReadValue, CSignal, CUnlock}
  {
    RunInv(c, run, labels, i);
  }

  // ----- no lost wakeup, no deadlock

  /** With the mutex free, a waiting consumer faces an empty slot and a waiting producer a full one. */
  lemma NoLostWakeup(c: Config, run: seq<State>, labels: seq<Label>, i: nat)
    requires IsRun(c, run, labels) && i < |run| && run[i].owner.Free?
    ensures run[i].cpc.CWaiting? ==> !run[i].full
    ensures run[i].ppc.PWaiting? ==> run[i].full
    ensures !(run[i].cpc.CWaiting? && run[i].ppc.PWaiting?)
  {
    RunInv(c, run, labels, i);
  }

  ghost predicate CanStep(c: Config, s: State) {
    exists l: Label, s': State :: !IsSpurious(l) && Step(c, s, l, s')
  }

  /** Nothing can happen only after main has printed all it wants and the producer waits for a reader. */
  lemma NoDeadlock(c: Config, run: seq<State>, labels: seq<Label>, i: nat)
    requires IsRun(c, run, labels) && i < |run|
    ensures CanStep(c, run[i]) <==> !(run[i].cpc.Finished? && run[i].ppc.PWaiting?)
  {
    RunInv(c, run, labels, i);
    var s := run[i];
    assert ProducerEnabled(s) ==> Step(c, s, Produce, ProducerNext(c, s));
    assert ConsumerEnabled(s) ==> Step(c, s, Consume, ConsumerNext(c, s));
  }

  /**
   * The consumer can go on unless it waits, is done, or is at its lock while the mutex is held; the
   * producer likewise; and a waiting thread may wake up at any time.
   */
  lemma PossibleSteps(c: Config, run: seq<State>, labels: seq<Label>, i: nat)
    requires IsRun(c, run, labels) && i < |run|
    ensures (exists s': State :: Step(c, run[i], Produce, s')) <==>
            !run[i].ppc.PWaiting? && (run[i].ppc.PLock? ==> run[i].owner.Free?)
    ensures (exists s': State :: Step(c, run[i], Consume, s')) <==>
            !run[i].cpc.CWaiting? && !run[i].cpc.Finished? && (run[i].cpc.CLock? ==> run[i].owner.Free?)
    ensures (exists s': State :: Step(c, run[i], SpuriousProducer, s')) <==> run[i].ppc.PWaiting?
    ensures (exists s': State :: Step(c, run[i], SpuriousConsumer, s')) <==> run[i].cpc.CWaiting?
  {
    var s := run[i];
    assert ProducerEnabled(s) ==> Step(c, s, Produce, ProducerNext(c, s));
    assert ConsumerEnabled(s) ==> Step(c, s, Consume, ConsumerNext(c, s));
    assert s.ppc.PWaiting? ==> Step(c, s, SpuriousProducer, s.(ppc := PLock));
    assert s.cpc.CWaiting? ==> Step(c, s, SpuriousConsumer, s.(cpc := CLock));
  }

  // ----- progress

  /** Words from v on, going round, up to 2. */
  function AroundToTwo(v: nat): int {
    if v <= 2 then 2 - v else WORD64 + 2 - v
  }

  /** Words to skip from v on, going round, to the next prime. */
  function Gap(c: Config, v: nat): (g: nat)
    ensures g <= WORD64
    ensures v < WORD64 ==> g <= AroundToTwo(v)
    decreases AroundToTwo(v)
  {
    if v >= WORD64 || v == 2 || c.isPrime(v) then 0 else 1 + Gap(c, Succ(v))
  }

  /** Steps left in the producer's current cycle, which begins once a value is in the slot. */
  function ProducerPhase(c: Config, s: State): nat
  {
    match s.ppc
    case PSignal => WORD64 + 30
    case PUnlock => WORD64 + 26
    case Scan => 13 + Gap(c, s.value)
    case PLock => 12
    case PTest => 11
    case PWaiting => 10
    case SetExists => 9
    case SetValue => 8
  }

  function ConsumerPhase(s: State): nat {
    match s.cpc
    case CSignal => 30
    case CUnlock => 26
    case Print => 25
    case Loop => 24
    case CLock => 12
    case CTest => 11
    case CWaiting => 10
    case ClearExists => 9
    case ReadValue => 8
    case Finished => 0
  }

  /** More steps than n cycles of either thread can take. */
  function Cycles(n: int): int {
    0x1_0000_0000_0000_0028 * n
  }

  /** Falls with every step but a spurious wakeup, which adds 2. */
  function Measure(c: Config, s: State): int
  {
    Cycles(2 * c.count + 2 - |s.released| - |s.acquired|) + ProducerPhase(c, s) + ConsumerPhase(s)
  }

  lemma ProducerMeasure(c: Config, s: State, s': State)
    requires c.isPrime(2) && s.value < WORD64 && Step(c, s, Produce, s')
    ensures Measure(c, s') < Measure(c, s)
  {
  }

  lemma ConsumerMeasure(c: Config, s: State, s': State)
    requires Step(c, s, Consume, s')
    ensures Measure(c, s') < Measure(c, s)
  {
  }

  lemma SpuriousMeasure(c: Config, s: State, l: Label, s': State)
    requires IsSpurious(l) && Step(c, s, l, s')
    ensures Measure(c, s') == Measure(c, s) + 2
  {
  }

  function Spurious(labels: seq<Label>): nat {
    if labels == [] then 0
    else Spurious(labels[..|labels| - 1]) +
         if IsSpurious(labels[|labels| - 1]) then 1 else 0
  }

  lemma StepMeasure(c: Config, s: State, l: Label, s': State)
    requires c.isPrime(2) && s.value < WORD64 && Step(c, s, l, s')
    ensures Measure(c, s') <= Measure(c, s) + if IsSpurious(l) then 2 else -1
  {
    match l
    case Produce => ProducerMeasure(c, s, s');
    case Consume => ConsumerMeasure(c, s, s');
    case _ => SpuriousMeasure(c, s, l, s');
  }

  lemma {:induction false} Descent(ms: seq<int>, labels: seq<Label>)
    requires |ms| == |labels| + 1
    requires forall i :: 0 <= i < |labels| ==> ms[i + 1] <= ms[i] + if IsSpurious(labels[i]) then 2 else -1
    ensures |labels| + ms[|labels|] <= ms[0] + 3 * Spurious(labels)
  {
    if labels != [] {
      var n := |labels| - 1;
      Descent(ms[..n + 1], labels[..n]);
    }
  }

  lemma MeasureBounds(c: Config, s: State)
    requires |s.released| + |s.acquired| <= 2 * c.count + 2
    ensures 0 <= Measure(c, s) <= Cycles(2 * c.count + 4)
  {
  }

  /**
   * No schedule can keep the two threads busy for ever: apart from three steps for every spurious
   * wakeup, a run has a bounded length, and one that cannot go on has printed count values.
   */
  lemma AlwaysFinishes(c: Config, run: seq<State>, labels: seq<Label>)
    requires c.Valid() && IsRun(c, run, labels)
    ensures |labels| <= Cycles(2 * c.count + 4) + 3 * Spurious(labels)
    ensures !CanStep(c, run[|labels|]) ==> |run[|labels|].printed| == c.count
  {
    var n := |labels|;
    OffersAfterWrap(c);
    RunInv(c, run, labels, n);
    RunInv(c, run, labels, 0);
    NoDeadlock(c, run, labels, n);
    var ms := seq(|run|, i requires 0 <= i < |run| => Measure(c, run[i]));
    forall i | 0 <= i < n ensures ms[i + 1] <= ms[i] + if IsSpurious(labels[i]) then 2 else -1 {
      RunInv(c, run, labels, i);
      StepMeasure(c, run[i], labels[i], run[i + 1]);
    }
    Descent(ms, labels);
    MeasureBounds(c, run[n]);
    MeasureBounds(c, run[0]);
  }

  // ----- which inputs are served right

  /** Every run goes on to one that cannot. */
  lemma {:induction false} Complete(c: Config, run: seq<State>, labels: seq<Label>)
    returns (run': seq<State>, labels': seq<Label>)
    requires c.Valid() && IsRun(c, run, labels)
    ensures IsRun(c, run', labels') && !CanStep(c, run'[|labels'|])
    decreases Measure(c, run[|labels|])
  {
    var s := run[|labels|];
    if !CanStep(c, s) {
      return run, labels;
    }
    var l: Label, s': State :| !IsSpurious(l) && Step(c, s, l, s');
    OffersAfterWrap(c);
    RunInv(c, run, labels, |labels|);
    StepMeasure(c, s, l, s');
    MeasureBounds(c, s);
    run', labels' := Complete(c, run + [s'], labels + [l]);
  }

  /** Some run is complete and prints count values. */
  lemma CompleteRun(c: Config) returns (run: seq<State>, labels: seq<Label>)
    requires c.Valid()
    ensures IsRun(c, run, labels) && !CanStep(c, run[|labels|]) && |run[|labels|].printed| == c.count
  {
    var start := State(Free, false, 0, Scan, c.base, Loop, 0, 0, [], [], [], 0);
    run, labels := Complete(c, [start], []);
    AlwaysFinishes(c, run, labels);
  }

  /** The program prints the first primes in every run exactly if count primes from base on fit in 64 bits. */
  lemma RightExactlyWhenPrimesSuffice(c: Config)
    requires c.Valid()
    ensures (forall run: seq<State>, labels: seq<Label>, i: nat :: IsRun(c, run, labels) && i < |run| ==>
               FirstPrimes(c.base, run[i].printed))
            <==> c.count <= |PrimesLeft(c)|
  {
    var complete, steps := CompleteRun(c);
    PrintsFirstPrimes(c, complete, steps, |steps|);
    if c.count <= |PrimesLeft(c)| {
      forall run: seq<State>, labels: seq<Label>, i: nat | IsRun(c, run, labels) && i < |run|
        ensures FirstPrimes(c.base, run[i].printed)
      {
        PrintsFirstPrimes(c, run, labels, i);
      }
    }
  }

  /** Asked for one prime from 2^64 - 1 on, which 3 divides, every complete run has printed 2. */
  lemma LargestWordFails(c: Config, run: seq<State>, labels: seq<Label>)
    requires c.Valid() && c.base == WORD64 - 1 && c.count == 1
    requires IsRun(c, run, labels) && !CanStep(c, run[|labels|])
    ensures PrimesLeft(c) == []
    ensures run[|labels|].printed == [2] && !FirstPrimes(c.base, [2])
  {
    assert Divides(3, WORD64 - 1);
    assert Offers(c, 1) == Offers(c, 0);
    OffersAfterWrap(c);
    AlwaysFinishes(c, run, labels);
    PrintsFirstPrimes(c, run, labels, |labels|);
    TakenFromFront(c, run[|labels|].scanned + 1, 4, run[|labels|].printed);
  }
}
