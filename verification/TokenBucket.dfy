/** The per-connection token bucket as a protocol: any number of threads are inside `Allow` at once, and each
    step is one atomic load or compare-and-swap of one of them on the shared `tokens` and `refillTick`.

    The configuration is constant during a run. Every run starts from a freshly registered connection. */
module TokenBucket {
  import opened Int32

  const TWO_TO_THE_30: int := 0x4000_0000
  const TWO_TO_THE_64: int := 0x1_0000_0000_0000_0000

  /** Both fields are any `int32`: the configuration file is not validated. */
  datatype Config = Config(maxTokens: int, refillPerTick: int)

  ghost predicate IsConfig(cfg: Config) {
    InInt32(cfg.maxTokens) && InInt32(cfg.refillPerTick)
  }

  function ToUint64(v: int): int
    requires InInt32(v)
  {
    if v < 0 then v + TWO_TO_THE_64 else v
  }

  /** The configured rate, guarded against division by zero. */
  function Rate(cfg: Config): (r: int)
    ensures r >= 1
  {
    if cfg.refillPerTick <= 0 then 1 else cfg.refillPerTick
  }

  /** The tokens one refill brings for `elapsed` ticks. */
  function Refill(cfg: Config, elapsed: nat): int
    requires IsConfig(cfg)
  {
    if elapsed >= ToUint64(cfg.maxTokens) / Rate(cfg) then cfg.maxTokens
    else ToInt32(ToInt32(elapsed) * Rate(cfg))
  }

  /** Where a thread is inside `Allow`, with its local variables. */
  datatype Thread =
    | Idle
    | LoadTick(tick: nat)
    | SwapTick(tick: nat, last: nat)
    | LoadForRefill(refill: int)
    | SwapRefill(refill: int, current: int)
    | LoadForTake
    | SwapTake(current: int)

  /** The shared bucket, the threads, and what has happened so far: packets granted, tokens lost to the
      cap or to a 32-bit wrap, and the tick intervals claimed for refill. */
  datatype State = State(
    tokens: int, refillTick: nat, threads: seq<Thread>,
    granted: nat, spilled: int, claims: seq<(nat, nat)>)

  /** A freshly registered connection and n threads about to call `Allow`. */
  function Initial(cfg: Config, n: nat): State {
    State(cfg.maxTokens, 0, seq(n, _ => Idle), 0, 0, [])
  }

  function Goto(s: State, t: nat, th: Thread): State
    requires t < |s.threads|
  {
    s.(threads := s.threads[t := th])
  }

  function Capped(cfg: Config, v: int): int {
    if v > cfg.maxTokens then cfg.maxTokens else v
  }

  /** Thread t takes its next atomic step. An idle thread starts a call for the given tick. */
  function Step(cfg: Config, s: State, t: nat, now: nat): (r: State)
    requires IsConfig(cfg) && t < |s.threads|
    ensures |r.threads| == |s.threads|
  {
    match s.threads[t]
    case Idle => Goto(s, t, LoadTick(now))
    case LoadTick(tick) =>
      if tick <= s.refillTick then Goto(s, t, LoadForTake) else Goto(s, t, SwapTick(tick, s.refillTick))
    case SwapTick(tick, last) =>
      if s.refillTick != last then Goto(s, t, LoadTick(tick))
      else
        var claim := (last, tick);
        Goto(s.(refillTick := tick, claims := s.claims + [claim]), t, LoadForRefill(Refill(cfg, Elapsed(claim))))
    case LoadForRefill(refill) => Goto(s, t, SwapRefill(refill, s.tokens))
    case SwapRefill(refill, current) =>
      if s.tokens != current then Goto(s, t, LoadForRefill(refill))
      else
        var sum := ToInt32(current + refill);
        Goto(s.(tokens := Capped(cfg, sum), spilled := s.spilled + (current + refill - Capped(cfg, sum))), t, LoadForTake)
    case LoadForTake =>
      if s.tokens < 1 then Goto(s, t, Idle) else Goto(s, t, SwapTake(s.tokens))
    case SwapTake(current) =>
      if s.tokens != current then Goto(s, t, LoadForTake)
      else Goto(s.(tokens := current - 1, granted := s.granted + 1), t, Idle)
  }

  /** Which thread moves, and the tick it passes if it starts a call. */
  datatype Choice = Choice(thread: nat, now: nat)

  ghost predicate IsSchedule(schedule: seq<Choice>, n: nat) {
    forall i :: 0 <= i < |schedule| ==> schedule[i].thread < n && schedule[i].now < TWO_TO_THE_64
  }

  function Run(cfg: Config, s: State, schedule: seq<Choice>): (r: State)
    requires IsConfig(cfg) && IsSchedule(schedule, |s.threads|)
    ensures |r.threads| == |s.threads|
    decreases |schedule|
  {
    if |schedule| == 0 then s
    else
      Step(cfg, Run(cfg, s, schedule[..|schedule| - 1]), schedule[|schedule| - 1].thread, schedule[|schedule| - 1].now)
  }

  // ---------- Conservation ----------

  function PendingOf(th: Thread): int {
    match th
    case LoadForRefill(refill) => refill
    case SwapRefill(refill, _) => refill
    case _ => 0
  }

  /** Tokens claimed by a won refill race and not yet added to the bucket. */
  function Pending(threads: seq<Thread>): int {
    if |threads| == 0 then 0 else PendingOf(threads[0]) + Pending(threads[1..])
  }

  function Refilled(cfg: Config, claims: seq<(nat, nat)>): int
    requires IsConfig(cfg)
  {
    if |claims| == 0 then 0
    else Refilled(cfg, claims[..|claims| - 1]) + Refill(cfg, Elapsed(claims[|claims| - 1]))
  }

  function Elapsed(claim: (nat, nat)): nat {
    if claim.0 <= claim.1 then claim.1 - claim.0 else 0
  }

  lemma {:induction false} PendingUpdate(threads: seq<Thread>, t: nat, th: Thread)
    requires t < |threads|
    ensures Pending(threads[t := th]) == Pending(threads) - PendingOf(threads[t]) + PendingOf(th)
  {
    if t == 0 {
      assert threads[t := th][1..] == threads[1..];
    } else {
      PendingUpdate(threads[1..], t - 1, th);
      assert threads[t := th][1..] == threads[1..][t - 1 := th];
    }
  }

  lemma {:induction false} PendingNonNegative(threads: seq<Thread>)
    requires forall i :: 0 <= i < |threads| ==> PendingOf(threads[i]) >= 0
    ensures Pending(threads) >= 0
  {
    if |threads| > 0 {
      PendingNonNegative(threads[1..]);
    }
  }

  // ---------- The invariant ----------

  ghost predicate HasCap(cfg: Config) {
    IsConfig(cfg) && cfg.maxTokens >= 0
  }

  /** A full bucket and a full refill together fit an `int32`. */
  ghost predicate SafeCap(cfg: Config) {
    HasCap(cfg) && cfg.maxTokens < TWO_TO_THE_30
  }

  /** What a token count can be: at most the cap, and negative only where the sum can wrap. */
  ghost predicate CountOk(cfg: Config, v: int) {
    InInt32(v) && v <= cfg.maxTokens && (SafeCap(cfg) ==> v >= 0)
  }

  ghost predicate ThreadOk(cfg: Config, s: State, th: Thread) {
    match th
    case SwapTick(tick, last) => last < tick && last <= s.refillTick
    case LoadForRefill(refill) => 0 <= refill <= cfg.maxTokens
    case SwapRefill(refill, current) => 0 <= refill <= cfg.maxTokens && CountOk(cfg, current)
    case SwapTake(current) => current >= 1
    case _ => true
  }

  /** The claimed intervals follow one another without gap or overlap, from 0 to refillTick. */
  ghost predicate Contiguous(claims: seq<(nat, nat)>, upTo: nat) {
    && (|claims| == 0 ==> upTo == 0)
    && (|claims| > 0 ==> claims[0].0 == 0 && claims[|claims| - 1].1 == upTo)
    && (forall i :: 0 <= i < |claims| ==> claims[i].0 < claims[i].1)
    && (forall i :: 0 <= i < |claims| - 1 ==> claims[i].1 == claims[i + 1].0)
  }

  ghost predicate Inv(cfg: Config, s: State)
    requires IsConfig(cfg)
  {
    && CountOk(cfg, s.tokens)
    && s.spilled >= 0
    && (forall i :: 0 <= i < |s.threads| ==> ThreadOk(cfg, s, s.threads[i]))
    && Contiguous(s.claims, s.refillTick)
    && s.granted + s.tokens + Pending(s.threads) + s.spilled == cfg.maxTokens + Refilled(cfg, s.claims)
  }

  lemma BelowCap(cap: nat, rate: nat, elapsed: nat)
    requires rate >= 1 && elapsed < cap / rate
    ensures elapsed <= elapsed * rate <= cap
  {
    var q := cap / rate;
    assert cap == q * rate + cap % rate;
    assert q * rate == elapsed * rate + (q - elapsed) * rate;
    assert elapsed * rate == elapsed + elapsed * (rate - 1);
  }

  /** No 32-bit truncation happens in a refill, and it never exceeds the cap. */
  lemma RefillExact(cfg: Config, elapsed: nat)
    requires HasCap(cfg)
    ensures 0 <= Refill(cfg, elapsed) <= cfg.maxTokens
    ensures Refill(cfg, elapsed) == if elapsed >= cfg.maxTokens / Rate(cfg) then cfg.maxTokens else elapsed * Rate(cfg)
  {
    if elapsed < cfg.maxTokens / Rate(cfg) {
      BelowCap(cfg.maxTokens, Rate(cfg), elapsed);
    }
  }

  lemma {:induction false} PendingIdle(n: nat)
    ensures Pending(seq(n, _ => Idle)) == 0
  {
    if n > 0 {
      PendingIdle(n - 1);
      assert seq(n, _ => Idle)[1..] == seq(n - 1, _ => Idle);
    }
  }

  lemma InvInitial(cfg: Config, n: nat)
    requires HasCap(cfg)
    ensures Inv(cfg, Initial(cfg, n))
  {
    PendingIdle(n);
  }

  lemma ClaimExtends(cfg: Config, claims: seq<(nat, nat)>, last: nat, tick: nat)
    requires HasCap(cfg) && Contiguous(claims, last) && last < tick
    ensures Contiguous(claims + [(last, tick)], tick)
    ensures Refilled(cfg, claims + [(last, tick)]) == Refilled(cfg, claims) + Refill(cfg, Elapsed((last, tick)))
  {
    hide Refill;
    assert (claims + [(last, tick)])[..|claims|] == claims;
  }

  /** The steps on `refillTick`. */
  lemma InvTickStep(cfg: Config, s: State, t: nat, now: nat)
    requires HasCap(cfg) && t < |s.threads| && Inv(cfg, s)
    requires s.threads[t].Idle? || s.threads[t].LoadTick? || s.threads[t].SwapTick?
    ensures Inv(cfg, Step(cfg, s, t, now))
  {
    hide Refill, Contiguous, Refilled, Pending;
    var r := Step(cfg, s, t, now);
    assert ThreadOk(cfg, s, s.threads[t]);
    PendingUpdate(s.threads, t, r.threads[t]);
    if s.threads[t].SwapTick? && s.refillTick == s.threads[t].last {
      RefillExact(cfg, Elapsed((s.threads[t].last, s.threads[t].tick)));
      ClaimExtends(cfg, s.claims, s.threads[t].last, s.threads[t].tick);
    }
  }

  /** The steps on `tokens`. */
  lemma InvTokenStep(cfg: Config, s: State, t: nat, now: nat)
    requires HasCap(cfg) && t < |s.threads| && Inv(cfg, s)
    requires !s.threads[t].Idle? && !s.threads[t].LoadTick? && !s.threads[t].SwapTick?
    ensures Inv(cfg, Step(cfg, s, t, now))
  {
    hide Refill, Contiguous, Refilled, Pending;
    var r := Step(cfg, s, t, now);
    assert ThreadOk(cfg, s, s.threads[t]);
    PendingUpdate(s.threads, t, r.threads[t]);
  }

  /** Every atomic step of every thread keeps the invariant. */
  lemma InvStep(cfg: Config, s: State, t: nat, now: nat)
    requires HasCap(cfg) && t < |s.threads| && Inv(cfg, s)
    ensures Inv(cfg, Step(cfg, s, t, now))
  {
    hide Inv, Step;
    if s.threads[t].Idle? || s.threads[t].LoadTick? || s.threads[t].SwapTick? {
      InvTickStep(cfg, s, t, now);
    } else {
      InvTokenStep(cfg, s, t, now);
    }
  }

  /** Over every interleaving of any number of threads the invariant holds. */
  lemma {:induction false} InvRun(cfg: Config, n: nat, schedule: seq<Choice>)
    requires HasCap(cfg) && IsSchedule(schedule, n)
    ensures Inv(cfg, Run(cfg, Initial(cfg, n), schedule))
    decreases |schedule|
  {
    hide Step, Inv;
    if |schedule| == 0 {
      InvInitial(cfg, n);
    } else {
      var before := schedule[..|schedule| - 1];
      InvRun(cfg, n, before);
      InvStep(cfg, Run(cfg, Initial(cfg, n), before), schedule[|schedule| - 1].thread, schedule[|schedule| - 1].now);
    }
  }

  // ---------- The promises ----------

  /** No two refills cover the same tick. */
  lemma {:induction false} ClaimsDisjoint(claims: seq<(nat, nat)>, upTo: nat, i: nat, j: nat)
    requires Contiguous(claims, upTo) && i < j < |claims|
    ensures claims[i].1 <= claims[j].0
    decreases j - i
  {
    if i + 1 < j {
      ClaimsDisjoint(claims, upTo, i + 1, j);
    }
  }

  /** How much one refill can exceed rate * elapsed. */
  function Excess(cfg: Config): (e: int)
    requires HasCap(cfg)
    ensures 0 <= e < Rate(cfg)
  {
    if cfg.maxTokens < Rate(cfg) then 0 else cfg.maxTokens % Rate(cfg)
  }

  lemma CapAgainstRate(cap: nat, rate: nat, elapsed: nat)
    requires rate >= 1 && elapsed >= 1 && elapsed >= cap / rate
    ensures cap <= rate * elapsed + if cap < rate then 0 else cap % rate
  {
    var q := cap / rate;
    assert cap == rate * q + cap % rate;
    assert rate * q <= rate * elapsed by {
      assert rate * elapsed == rate * q + rate * (elapsed - q);
    }
    assert rate <= rate * elapsed by {
      assert rate * elapsed == rate + rate * (elapsed - 1);
    }
  }

  lemma RefillBound(cfg: Config, elapsed: nat)
    requires HasCap(cfg) && elapsed > 0
    ensures Refill(cfg, elapsed) <= Rate(cfg) * elapsed + Excess(cfg)
  {
    hide Refill;
    RefillExact(cfg, elapsed);
    if elapsed >= cfg.maxTokens / Rate(cfg) {
      CapAgainstRate(cfg.maxTokens, Rate(cfg), elapsed);
    }
  }

  lemma ProductAtLeast(rate: int, elapsed: nat)
    requires rate >= 1
    ensures rate * elapsed >= elapsed && rate * elapsed == elapsed * rate
  {
    assert rate * elapsed == elapsed + (rate - 1) * elapsed;
  }

  lemma WrappedProduct(rate: int, elapsed: nat)
    requires rate >= 1
    ensures ToInt32(ToInt32(elapsed) * rate) <= rate * elapsed
  {
    hide ToInt32;
    ProductAtLeast(rate, elapsed);
    if InInt32(elapsed) {
      InRangeKept(elapsed);
      WrapNotAbove(elapsed * rate);
    }
  }

  lemma InRangeKept(v: int)
    requires InInt32(v)
    ensures ToInt32(v) == v
  {
  }

  /** With a negative cap a refill may wrap to anything, but not above rate * elapsed. */
  lemma NegativeCapRefill(cfg: Config, elapsed: nat)
    requires IsConfig(cfg) && cfg.maxTokens < 0
    ensures Refill(cfg, elapsed) <= Rate(cfg) * elapsed
  {
    hide ToInt32, Rate, ToUint64;
    WrappedProduct(Rate(cfg), elapsed);
    ProductAtLeast(Rate(cfg), elapsed);
  }

  lemma WrapNotAbove(v: nat)
    ensures ToInt32(v) <= v
  {
  }

  /** A refill stays within rate * elapsed for every elapsed time exactly if the rate divides the cap, or
      exceeds it. */
  lemma RefillWithinRateIff(cfg: Config)
    requires IsConfig(cfg)
    ensures (forall e: nat :: e > 0 ==> Refill(cfg, e) <= Rate(cfg) * e) <==>
      cfg.maxTokens % Rate(cfg) == 0 || cfg.maxTokens < Rate(cfg)
  {
    hide Refill;
    forall e: nat | e > 0
      ensures Refill(cfg, e) <= Rate(cfg) * e + if cfg.maxTokens < 0 then 0 else Excess(cfg)
    {
      if cfg.maxTokens < 0 {
        NegativeCapRefill(cfg, e);
      } else {
        RefillBound(cfg, e);
      }
    }
    if cfg.maxTokens % Rate(cfg) != 0 && cfg.maxTokens >= Rate(cfg) {
      var q := cfg.maxTokens / Rate(cfg);
      QuotientBounds(cfg.maxTokens, Rate(cfg));
      RefillExact(cfg, q);
      assert q > 0 && Refill(cfg, q) > Rate(cfg) * q;
    }
  }

  // ---------- What may still be granted ----------

  /** Tokens that can be taken. */
  function Available(s: State): nat {
    if s.tokens > 0 then s.tokens else 0
  }

  /** Grants so far and in sight, less what the refills so far may have brought. */
  ghost function Spent(cfg: Config, s: State): int
    requires HasCap(cfg)
  {
    s.granted + Pending(s.threads) + Available(s) - Rate(cfg) * s.refillTick - Excess(cfg) * |s.claims|
  }

  lemma ClaimSpends(rate: nat, excess: nat, last: nat, tick: nat, claims: nat, refill: int)
    requires last <= tick && refill <= rate * (tick - last) + excess
    ensures refill - rate * tick - excess * (claims + 1) <= -(rate * last) - excess * claims
  {
    assert rate * tick == rate * last + rate * (tick - last);
    assert excess * (claims + 1) == excess * claims + excess;
  }

  /** No step of any thread spends more than a refill brings, even where the sum of tokens wraps. */
  lemma StepSpends(cfg: Config, s: State, t: nat, now: nat)
    requires HasCap(cfg) && t < |s.threads| && Inv(cfg, s)
    ensures Spent(cfg, Step(cfg, s, t, now)) <= Spent(cfg, s)
  {
    hide Refill, Contiguous, Refilled, Pending, Excess, Rate;
    var r := Step(cfg, s, t, now);
    assert ThreadOk(cfg, s, s.threads[t]);
    PendingUpdate(s.threads, t, r.threads[t]);
    if s.threads[t].SwapTick? && s.refillTick == s.threads[t].last {
      var last, tick := s.threads[t].last, s.threads[t].tick;
      RefillBound(cfg, Elapsed((last, tick)));
      ClaimSpends(Rate(cfg), Excess(cfg), last, tick, |s.claims|, Refill(cfg, Elapsed((last, tick))));
    }
  }

  lemma {:induction false} RunSpends(cfg: Config, s: State, schedule: seq<Choice>)
    requires HasCap(cfg) && Inv(cfg, s) && IsSchedule(schedule, |s.threads|)
    ensures Inv(cfg, Run(cfg, s, schedule)) && Spent(cfg, Run(cfg, s, schedule)) <= Spent(cfg, s)
    decreases |schedule|
  {
    hide Step, Inv, Spent;
    if |schedule| > 0 {
      var before := schedule[..|schedule| - 1];
      RunSpends(cfg, s, before);
      var c := schedule[|schedule| - 1];
      InvStep(cfg, Run(cfg, s, before), c.thread, c.now);
      StepSpends(cfg, Run(cfg, s, before), c.thread, c.now);
    }
  }

  /** The rate limit over any window of any interleaving: from one state of a run to a later one, at most the
      tokens at hand and in sight, plus the rate times the ticks that passed, plus the excess of each refill. */
  lemma GrantsInWindow(cfg: Config, n: nat, before: seq<Choice>, window: seq<Choice>)
    requires HasCap(cfg) && IsSchedule(before, n) && IsSchedule(window, n)
    ensures IsSchedule(before + window, n)
    ensures var s, t := Run(cfg, Initial(cfg, n), before), Run(cfg, Initial(cfg, n), before + window);
      t.granted - s.granted <= Available(s) + Pending(s.threads)
        + Rate(cfg) * (t.refillTick - s.refillTick) + Excess(cfg) * (|t.claims| - |s.claims|)
  {
    hide Run, Refilled, Contiguous, Pending, IsSchedule, Excess, Rate;
    var s0 := Initial(cfg, n);
    InvRun(cfg, n, before);
    RunAppend(cfg, s0, before, window);
    var s, t := Run(cfg, s0, before), Run(cfg, s0, before + window);
    RunSpends(cfg, s, window);
    InvPending(cfg, t);
    Distribute(Rate(cfg), t.refillTick, s.refillTick);
    Distribute(Excess(cfg), |t.claims|, |s.claims|);
  }

  lemma Distribute(a: int, x: int, y: int)
    ensures a * (x - y) == a * x - a * y
  {
  }

  lemma InvPending(cfg: Config, s: State)
    requires HasCap(cfg) && Inv(cfg, s)
    ensures Pending(s.threads) >= 0
  {
    hide Refilled, Contiguous, Pending;
    forall i | 0 <= i < |s.threads| ensures PendingOf(s.threads[i]) >= 0 {
      assert ThreadOk(cfg, s, s.threads[i]);
    }
    PendingNonNegative(s.threads);
  }

  /** The rate limit from registration on, over every interleaving: at most the burst plus the rate times the
      ticks that passed, plus the excess of each refill, which is none when the rate divides the cap (as the
      defaults do). */
  lemma GrantsBounded(cfg: Config, n: nat, schedule: seq<Choice>)
    requires HasCap(cfg) && IsSchedule(schedule, n)
    ensures var s := Run(cfg, Initial(cfg, n), schedule);
      s.granted <= cfg.maxTokens + Rate(cfg) * s.refillTick + Excess(cfg) * |s.claims|
    ensures cfg.maxTokens % Rate(cfg) == 0 || cfg.maxTokens < Rate(cfg) ==>
      var s := Run(cfg, Initial(cfg, n), schedule); s.granted <= cfg.maxTokens + Rate(cfg) * s.refillTick
  {
    hide Run, Pending, Inv, Rate;
    InvInitial(cfg, n);
    PendingIdle(n);
    RunSpends(cfg, Initial(cfg, n), schedule);
    InvPending(cfg, Run(cfg, Initial(cfg, n), schedule));
  }

  /** A negative cap grants nothing, whatever the 32-bit products and sums wrap to. */
  lemma {:induction false} NegativeCapGrantsNothing(cfg: Config, n: nat, schedule: seq<Choice>)
    requires IsConfig(cfg) && cfg.maxTokens < 0 && IsSchedule(schedule, n)
    ensures var s := Run(cfg, Initial(cfg, n), schedule);
      s.granted == 0 && s.tokens <= cfg.maxTokens && NobodyTakes(s)
    decreases |schedule|
  {
    hide Refill;
    if |schedule| > 0 {
      NegativeCapGrantsNothing(cfg, n, schedule[..|schedule| - 1]);
    }
  }

  ghost predicate NobodyTakes(s: State) {
    forall i :: 0 <= i < |s.threads| ==> !s.threads[i].SwapTake?
  }

  ghost predicate TokensInRange(cfg: Config, n: nat, schedule: seq<Choice>)
    requires IsConfig(cfg)
  {
    IsSchedule(schedule, n) ==> 0 <= Run(cfg, Initial(cfg, n), schedule).tokens <= cfg.maxTokens
  }

  // ---------- Single-threaded runs ----------

  lemma {:induction false} RunAppend(cfg: Config, s: State, a: seq<Choice>, b: seq<Choice>)
    requires IsConfig(cfg) && IsSchedule(a, |s.threads|) && IsSchedule(b, |s.threads|)
    ensures IsSchedule(a + b, |s.threads|)
    ensures Run(cfg, s, a + b) == Run(cfg, Run(cfg, s, a), b)
    decreases |b|
  {
    hide Step;
    if |b| == 0 {
      assert a + b == a;
    } else {
      var init := b[..|b| - 1];
      RunAppend(cfg, s, a, init);
      assert (a + b)[..|a + b| - 1] == a + init;
    }
  }

  lemma RunOne(cfg: Config, s: State, c: Choice)
    requires IsConfig(cfg) && IsSchedule([c], |s.threads|)
    ensures Run(cfg, s, [c]) == Step(cfg, s, c.thread, c.now)
  {
    assert [c][..0] == [];
  }

  /** A single thread takes n steps in a row. */
  function Steps(cfg: Config, s: State, now: nat, n: nat): (r: State)
    requires IsConfig(cfg) && |s.threads| == 1
    ensures |r.threads| == 1
    decreases n
  {
    if n == 0 then s else Steps(cfg, Step(cfg, s, 0, now), now, n - 1)
  }

  lemma {:induction false} StepsAreRun(cfg: Config, s: State, now: nat, n: nat) returns (schedule: seq<Choice>)
    requires IsConfig(cfg) && |s.threads| == 1 && now < TWO_TO_THE_64
    ensures IsSchedule(schedule, 1) && Run(cfg, s, schedule) == Steps(cfg, s, now, n)
    decreases n
  {
    hide Step;
    schedule := [];
    if n > 0 {
      var c := Choice(0, now);
      var rest := StepsAreRun(cfg, Step(cfg, s, 0, now), now, n - 1);
      RunOne(cfg, s, c);
      RunAppend(cfg, s, [c], rest);
      schedule := [c] + rest;
    }
  }

  // ---------- The token count, exactly ----------

  /** One call that refills a full bucket of at least 2^30 tokens makes the 32-bit sum wrap below zero. */
  lemma OverflowRun(cfg: Config) returns (schedule: seq<Choice>)
    requires IsConfig(cfg) && cfg.maxTokens >= TWO_TO_THE_30
    ensures IsSchedule(schedule, 1) && Run(cfg, Initial(cfg, 1), schedule).tokens < 0
  {
    hide Step, Run, Steps;
    OverflowSteps(cfg);
    schedule := StepsAreRun(cfg, Initial(cfg, 1), cfg.maxTokens, 5);
  }

  lemma FullRefill(cfg: Config)
    requires IsConfig(cfg) && cfg.maxTokens > 0
    ensures Refill(cfg, cfg.maxTokens) == cfg.maxTokens
  {
    assert cfg.maxTokens >= cfg.maxTokens / Rate(cfg);
  }

  lemma OverflowSteps(cfg: Config)
    requires IsConfig(cfg) && cfg.maxTokens >= TWO_TO_THE_30
    ensures Steps(cfg, Initial(cfg, 1), cfg.maxTokens, 5).tokens < 0
  {
    hide Refill;
    FullRefill(cfg);
    var m := cfg.maxTokens;
    var s2 := Step(cfg, Step(cfg, Initial(cfg, 1), 0, m), 0, m);
    assert s2 == State(m, 0, [SwapTick(m, 0)], 0, 0, []);
    var s3 := Step(cfg, s2, 0, m);
    assert s3 == State(m, m, [LoadForRefill(m)], 0, 0, [(0, m)]);
    var s4 := Step(cfg, s3, 0, m);
    assert s4 == s3.(threads := [SwapRefill(m, m)]);
    FiveSteps(cfg, Initial(cfg, 1), m);
  }

  lemma TwoSteps(cfg: Config, s: State, now: nat)
    requires IsConfig(cfg) && |s.threads| == 1
    ensures Steps(cfg, s, now, 2) == Step(cfg, Step(cfg, s, 0, now), 0, now)
  {
    hide Step;
  }

  lemma FiveSteps(cfg: Config, s: State, now: nat)
    requires IsConfig(cfg) && |s.threads| == 1
    ensures Steps(cfg, s, now, 5) ==
      Step(cfg, Step(cfg, Step(cfg, Step(cfg, Step(cfg, s, 0, now), 0, now), 0, now), 0, now), 0, now)
  {
    hide Step;
  }

  /** The token count stays between 0 and the cap in every reachable state exactly for caps from 0 to
      2^30 - 1; at 2^30 the sum of a full bucket and a full refill no longer fits an `int32`. */
  lemma TokensInRangeIff(cfg: Config)
    requires IsConfig(cfg)
    ensures (forall n: nat, schedule :: TokensInRange(cfg, n, schedule)) <==> 0 <= cfg.maxTokens < TWO_TO_THE_30
  {
    if 0 <= cfg.maxTokens < TWO_TO_THE_30 {
      forall n: nat, schedule ensures TokensInRange(cfg, n, schedule) {
        if IsSchedule(schedule, n) {
          InvRun(cfg, n, schedule);
        }
      }
    } else if cfg.maxTokens < 0 {
      assert Run(cfg, Initial(cfg, 1), []).tokens < 0;
      assert !TokensInRange(cfg, 1, []);
    } else {
      var schedule := OverflowRun(cfg);
      assert !TokensInRange(cfg, 1, schedule);
    }
  }

  // ---------- The rate limit over runs, exactly ----------

  ghost predicate GrantsWithinRate(cfg: Config, n: nat, schedule: seq<Choice>)
    requires IsConfig(cfg)
  {
    IsSchedule(schedule, n) ==>
      var s := Run(cfg, Initial(cfg, n), schedule);
      s.granted <= cfg.maxTokens + Rate(cfg) * s.refillTick
  }

  lemma FinishTake(cfg: Config, s: State, now: nat)
    requires IsConfig(cfg) && s.threads == [LoadForTake] && s.tokens >= 1
    ensures Steps(cfg, s, now, 2) == s.(threads := [Idle], tokens := s.tokens - 1, granted := s.granted + 1)
  {
    hide Refill;
    TwoSteps(cfg, s, now);
    assert Step(cfg, s, 0, now) == s.(threads := [SwapTake(s.tokens)]);
  }

  lemma SkipRefill(cfg: Config, s: State, now: nat)
    requires IsConfig(cfg) && s.threads == [Idle] && now <= s.refillTick
    ensures Steps(cfg, s, now, 2) == s.(threads := [LoadForTake])
  {
    hide Refill;
    TwoSteps(cfg, s, now);
    assert Step(cfg, s, 0, now) == s.(threads := [LoadTick(now)]);
  }

  /** A call that comes late enough fills an empty bucket to the cap. */
  lemma RefillToCap(cfg: Config, s: State, now: nat)
    requires HasCap(cfg) && s.threads == [Idle] && s.tokens == 0 && now > s.refillTick
    requires now - s.refillTick >= cfg.maxTokens / Rate(cfg)
    ensures var r := Steps(cfg, s, now, 5);
      r.threads == [LoadForTake] && r.tokens == cfg.maxTokens && r.granted == s.granted && r.refillTick == now
  {
    hide Refill, Steps;
    RefillExact(cfg, now - s.refillTick);
    FiveSteps(cfg, s, now);
    var s1 := Step(cfg, s, 0, now);
    assert s1 == s.(threads := [LoadTick(now)]);
    var s2 := Step(cfg, s1, 0, now);
    assert s2 == s.(threads := [SwapTick(now, s.refillTick)]);
    var s3 := Step(cfg, s2, 0, now);
    assert s3.threads == [LoadForRefill(cfg.maxTokens)] && s3.tokens == 0;
    assert s3.refillTick == now && s3.granted == s.granted;
    var s4 := Step(cfg, s3, 0, now);
    assert s4 == s3.(threads := [SwapRefill(cfg.maxTokens, 0)]);
  }

  /** One thread takes every token there is. */
  lemma {:induction false} Drain(cfg: Config, s: State, now: nat) returns (schedule: seq<Choice>)
    requires IsConfig(cfg) && s.threads == [Idle] && s.tokens >= 0 && now <= s.refillTick && now < TWO_TO_THE_64
    ensures IsSchedule(schedule, 1)
    ensures Run(cfg, s, schedule) == s.(tokens := 0, granted := s.granted + s.tokens)
    decreases s.tokens
  {
    hide Step, Steps, IsSchedule;
    schedule := [];
    NoSchedule();
    if s.tokens > 0 {
      SkipRefill(cfg, s, now);
      FinishTake(cfg, s.(threads := [LoadForTake]), now);
      var a := StepsAreRun(cfg, s, now, 2);
      var b := StepsAreRun(cfg, Run(cfg, s, a), now, 2);
      RunAppend(cfg, s, a, b);
      var rest := Drain(cfg, Run(cfg, s, a + b), now);
      RunAppend(cfg, s, a + b, rest);
      schedule := a + b + rest;
    }
  }

  lemma NoSchedule()
    ensures IsSchedule([], 1)
  {
  }

  lemma QuotientBounds(cap: nat, rate: nat)
    requires 1 <= rate <= cap
    ensures 1 <= cap / rate <= cap
    ensures rate * (cap / rate) == cap - cap % rate
  {
    var q := cap / rate;
    assert cap == q * rate + cap % rate;
    assert q * rate == q + q * (rate - 1);
  }

  /** Drain a full bucket, come back when a refill brings the whole cap again, and drain it once more. */
  lemma BurstTwice(cfg: Config) returns (schedule: seq<Choice>)
    requires HasCap(cfg) && cfg.maxTokens >= Rate(cfg)
    ensures IsSchedule(schedule, 1)
    ensures var s := Run(cfg, Initial(cfg, 1), schedule);
      s.granted == 2 * cfg.maxTokens && s.refillTick == cfg.maxTokens / Rate(cfg)
  {
    hide Step, Run, Steps, IsSchedule, Rate;
    QuotientBounds(cfg.maxTokens, Rate(cfg));
    var now := cfg.maxTokens / Rate(cfg);
    var s0 := Initial(cfg, 1);
    var a := Drain(cfg, s0, 0);
    RefillToCap(cfg, Run(cfg, s0, a), now);
    var b := StepsAreRun(cfg, Run(cfg, s0, a), now, 5);
    RunAppend(cfg, s0, a, b);
    var s2 := Run(cfg, s0, a + b);
    FinishTake(cfg, s2, now);
    var c := StepsAreRun(cfg, s2, now, 2);
    RunAppend(cfg, s0, a + b, c);
    var d := Drain(cfg, Run(cfg, s0, a + b + c), now);
    RunAppend(cfg, s0, a + b + c, d);
    schedule := a + b + c + d;
  }

  /** Grants stay within the burst plus the rate times the ticks that passed, over every interleaving of any
      number of threads and for every configuration, exactly if the cap is not negative and the rate divides it
      or exceeds it. */
  lemma GrantsWithinRateIff(cfg: Config)
    requires IsConfig(cfg)
    ensures (forall n: nat, schedule :: GrantsWithinRate(cfg, n, schedule)) <==>
      cfg.maxTokens >= 0 && (cfg.maxTokens % Rate(cfg) == 0 || cfg.maxTokens < Rate(cfg))
  {
    hide IsSchedule;
    if cfg.maxTokens < 0 {
      NoSchedule();
      assert Run(cfg, Initial(cfg, 1), []) == Initial(cfg, 1);
      assert !GrantsWithinRate(cfg, 1, []);
    } else {
      WithinRateForCap(cfg);
    }
  }

  lemma WithinRateForCap(cfg: Config)
    requires HasCap(cfg)
    ensures (forall n: nat, schedule :: GrantsWithinRate(cfg, n, schedule)) <==>
      cfg.maxTokens % Rate(cfg) == 0 || cfg.maxTokens < Rate(cfg)
  {
    hide Run, IsSchedule, Rate;
    if cfg.maxTokens % Rate(cfg) == 0 || cfg.maxTokens < Rate(cfg) {
      forall n: nat, schedule ensures GrantsWithinRate(cfg, n, schedule) {
        if IsSchedule(schedule, n) {
          GrantsBounded(cfg, n, schedule);
        }
      }
    } else {
      var schedule := BurstTwice(cfg);
      QuotientBounds(cfg.maxTokens, Rate(cfg));
      assert !GrantsWithinRate(cfg, 1, schedule);
    }
  }

  // ---------- What one call gets ----------

  function Min(a: int, b: int): int {
    if a <= b then a else b
  }

  /** The refill in terms of the configured rate: rate times the ticks that passed, or the whole cap once that
      many ticks bring it; a rate of 0 or less counts as 1. */
  lemma RefillConfigured(cfg: Config, elapsed: nat)
    requires HasCap(cfg)
    ensures cfg.refillPerTick >= 1 ==>
      Refill(cfg, elapsed) ==
        (if elapsed >= cfg.maxTokens / cfg.refillPerTick then cfg.maxTokens else elapsed * cfg.refillPerTick)
    ensures cfg.refillPerTick <= 0 ==> Refill(cfg, elapsed) == Min(elapsed, cfg.maxTokens)
  {
    RefillExact(cfg, elapsed);
  }

  /** A call whose tick is newer adds the whole refill to whatever the bucket holds, up to the cap. */
  lemma RefillAlone(cfg: Config, s: State, now: nat)
    requires SafeCap(cfg) && s.threads == [Idle] && 0 <= s.tokens <= cfg.maxTokens && now > s.refillTick
    ensures var r := Steps(cfg, s, now, 5);
      r.threads == [LoadForTake] && r.granted == s.granted && r.refillTick == now
      && r.tokens == Min(cfg.maxTokens, s.tokens + Refill(cfg, now - s.refillTick))
  {
    hide Refill, Steps;
    var refill := Refill(cfg, now - s.refillTick);
    RefillExact(cfg, now - s.refillTick);
    FiveSteps(cfg, s, now);
    var s1 := Step(cfg, s, 0, now);
    assert s1 == s.(threads := [LoadTick(now)]);
    var s2 := Step(cfg, s1, 0, now);
    assert s2 == s.(threads := [SwapTick(now, s.refillTick)]);
    var s3 := Step(cfg, s2, 0, now);
    assert s3.threads == [LoadForRefill(refill)] && s3.tokens == s.tokens;
    assert s3.refillTick == now && s3.granted == s.granted;
    var s4 := Step(cfg, s3, 0, now);
    assert s4 == s3.(threads := [SwapRefill(refill, s.tokens)]);
  }

  lemma TakeNone(cfg: Config, s: State, now: nat)
    requires IsConfig(cfg) && s.threads == [LoadForTake] && s.tokens < 1
    ensures Steps(cfg, s, now, 1) == s.(threads := [Idle])
  {
    hide Refill;
    assert Steps(cfg, s, now, 1) == Step(cfg, s, 0, now);
  }

  lemma {:induction false} StepsAppend(cfg: Config, s: State, now: nat, m: nat, n: nat)
    requires IsConfig(cfg) && |s.threads| == 1
    ensures Steps(cfg, s, now, m + n) == Steps(cfg, Steps(cfg, s, now, m), now, n)
    decreases m
  {
    hide Step;
    if m > 0 {
      StepsAppend(cfg, Step(cfg, s, 0, now), now, m - 1, n);
    }
  }

  /** A call that nobody disturbs, from start to end: it refills if its tick is newer, and then it is granted and
      takes one token exactly if there is one. */
  lemma AllowAlone(cfg: Config, s: State, now: nat) returns (n: nat)
    requires SafeCap(cfg) && s.threads == [Idle] && 0 <= s.tokens <= cfg.maxTokens
    ensures var have := if now > s.refillTick then Min(cfg.maxTokens, s.tokens + Refill(cfg, now - s.refillTick))
                        else s.tokens;
      var r := Steps(cfg, s, now, n);
      r.threads == [Idle] && r.refillTick == (if now > s.refillTick then now else s.refillTick)
      && r.granted == (if have >= 1 then s.granted + 1 else s.granted)
      && r.tokens == (if have >= 1 then have - 1 else have)
  {
    hide Refill, Steps;
    var m := if now > s.refillTick then 5 else 2;
    if now > s.refillTick {
      RefillAlone(cfg, s, now);
    } else {
      SkipRefill(cfg, s, now);
    }
    var mid := Steps(cfg, s, now, m);
    var k := if mid.tokens >= 1 then 2 else 1;
    if mid.tokens >= 1 {
      FinishTake(cfg, mid, now);
    } else {
      TakeNone(cfg, mid, now);
    }
    StepsAppend(cfg, s, now, m, k);
    n := m + k;
  }

  // ---------- What a call gets among others ----------

  /** A call ends granted, with one token taken, or denied, having found fewer than one token; losing a race to
      another call never denies it. */
  lemma CallEnds(cfg: Config, s: State, t: nat, now: nat)
    requires HasCap(cfg) && t < |s.threads| && Inv(cfg, s)
    requires !s.threads[t].Idle? && Step(cfg, s, t, now).threads[t].Idle?
    ensures var r := Step(cfg, s, t, now);
      if s.tokens >= 1 then r.granted == s.granted + 1 && r.tokens == s.tokens - 1
      else r.granted == s.granted && r.tokens == s.tokens
  {
    hide Refill, Contiguous, Refilled, Pending;
    assert ThreadOk(cfg, s, s.threads[t]);
  }

  /** Only a call's end grants. */
  lemma GrantEndsCall(cfg: Config, s: State, t: nat, now: nat)
    requires IsConfig(cfg) && t < |s.threads| && Step(cfg, s, t, now).granted != s.granted
    ensures Step(cfg, s, t, now).granted == s.granted + 1 && Step(cfg, s, t, now).threads[t].Idle?
    ensures !s.threads[t].Idle?
  {
    hide Refill;
  }

  ghost predicate InRefillPhase(th: Thread, tick: nat) {
    (th.LoadTick? && th.tick == tick) || (th.SwapTick? && th.tick == tick)
  }

  /** A call leaves its refill phase only when its tick has been claimed, by itself or by another; and if by
      itself, it carries the refill for the ticks it claimed. */
  lemma RefillPhaseEnds(cfg: Config, s: State, t: nat, now: nat, tick: nat)
    requires IsConfig(cfg) && t < |s.threads| && InRefillPhase(s.threads[t], tick)
    ensures var r := Step(cfg, s, t, now);
      InRefillPhase(r.threads[t], tick)
      || (r.refillTick >= tick
          && r.threads[t] == (if s.threads[t].LoadTick? then LoadForTake
                              else LoadForRefill(Refill(cfg, Elapsed((s.refillTick, tick))))))
  {
    hide Refill;
  }

  /** A refill won is carried, unchanged, until all of it is added, up to the cap. */
  lemma RefillArrives(cfg: Config, s: State, t: nat, now: nat)
    requires SafeCap(cfg) && t < |s.threads| && Inv(cfg, s)
    requires s.threads[t].LoadForRefill? || s.threads[t].SwapRefill?
    ensures var r, refill := Step(cfg, s, t, now), PendingOf(s.threads[t]);
      if r.threads[t].LoadForTake? then r.tokens == Min(cfg.maxTokens, s.tokens + refill)
      else
        (r.threads[t].LoadForRefill? || r.threads[t].SwapRefill?)
        && PendingOf(r.threads[t]) == refill && r.tokens == s.tokens
  {
    hide Refill, Contiguous, Refilled, Pending;
    assert ThreadOk(cfg, s, s.threads[t]);
  }

  /** Tokens are lost only to a bucket that is full. */
  lemma LosesOnlyWhenFull(cfg: Config, s: State, t: nat, now: nat)
    requires SafeCap(cfg) && t < |s.threads| && Inv(cfg, s)
    ensures var r := Step(cfg, s, t, now);
      r.spilled >= s.spilled && (r.spilled > s.spilled ==> r.tokens == cfg.maxTokens)
  {
    hide Refill, Contiguous, Refilled, Pending;
    assert ThreadOk(cfg, s, s.threads[t]);
  }

  function Loaded(th: Thread): int
    requires th.SwapTick? || th.SwapRefill? || th.SwapTake?
  {
    match th
    case SwapTick(_, last) => last
    case SwapRefill(_, current) => current
    case SwapTake(current) => current
  }

  /** A call repeats a load only if another changed what it had loaded: some call always gets ahead. */
  lemma RepeatsOnlyWhenBeaten(cfg: Config, s: State, t: nat, now: nat)
    requires IsConfig(cfg) && t < |s.threads|
    requires s.threads[t].SwapTick? || s.threads[t].SwapRefill? || s.threads[t].SwapTake?
    ensures var before, after := s.threads[t], Step(cfg, s, t, now).threads[t];
      (before.SwapTick? && after.LoadTick?) || (before.SwapRefill? && after.LoadForRefill?)
      || (before.SwapTake? && after.LoadForTake?)
      <==> Loaded(before) != if before.SwapTick? then s.refillTick else s.tokens
  {
    hide Refill;
  }
}
