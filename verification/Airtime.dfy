/** The dispatcher's transmit budget: a token bucket refilled at the duty cycle. `float` is
    `real` here, `unsigned long` is 32 bits wide. */
module Airtime {
  import opened Words
  import opened Clock32

  /** 1 / (1 + factor), for the host's airtime budget factor */
  function DutyCycle(factor: real): (d: real)
    requires factor >= 0.0
    ensures 0.0 < d <= 1.0 && d * (1.0 + factor) == 1.0
  {
    DutyRange(1.0 + factor);
    1.0 / (1.0 + factor)
  }

  lemma DutyRange(x: real)
    requires x >= 1.0
    ensures 0.0 < 1.0 / x <= 1.0
  {
    var y := 1.0 / x;
    assert y * x == 1.0;
    if y > 1.0 { RealMono(1.0, y, x); }
  }

  lemma RealMono(a: real, b: real, d: real)
    requires a <= b && 0.0 <= d
    ensures a * d <= b * d
  {}

  lemma RealStep(x: real, d: real)
    ensures (x + 1.0) * d == x * d + d
  {}

  /** Fixed for a run: the duty cycle, the duty-cycle window and the airtime estimate of a frame of
      maximal length. */
  datatype Config = Config(duty: real, window: u32, est: u32)

  predicate Usable(c: Config) { 0.0 < c.duty <= 1.0 }

  function ConfigOf(factor: real, window: u32, est: u32): (c: Config)
    requires factor >= 0.0
    ensures Usable(c) && c.duty * (1.0 + factor) == 1.0 && c.window == window && c.est == est
  {
    Config(DutyCycle(factor), window, est)
  }

  /** n milliseconds' worth of duty cycle, by repeated addition. */
  ghost function Earned(d: real, n: nat): real
  {
    if n == 0 then 0.0 else Earned(d, n - 1) + d
  }

  lemma {:induction false} EarnedIsProduct(d: real, n: nat)
    ensures Earned(d, n) == n as real * d
  {
    if n > 0 {
      EarnedIsProduct(d, n - 1);
      assert n as real == (n - 1) as real + 1.0;
      RealStep((n - 1) as real, d);
    }
  }

  lemma {:induction false} EarnedSum(d: real, m: nat, n: nat)
    ensures Earned(d, m + n) == Earned(d, m) + Earned(d, n)
  {
    if n > 0 { EarnedSum(d, m, n - 1); }
  }

  lemma {:induction false} EarnedRange(d: real, n: nat)
    requires 0.0 < d <= 1.0
    ensures 0.0 <= Earned(d, n) <= n as real
  {
    if n > 0 { EarnedRange(d, n - 1); }
  }

  lemma {:induction false} EarnedMono(d: real, m: nat, n: nat)
    requires 0.0 < d <= 1.0 && m <= n
    ensures Earned(d, m) <= Earned(d, n)
  {
    EarnedSum(d, m, n - m);
    EarnedRange(d, n - m);
  }

  /** (unsigned long)(t * duty) */
  function Share(t: u32, c: Config): (n: u32)
    requires Usable(c)
    ensures n as real <= Earned(c.duty, t) < n as real + 1.0
  {
    EarnedIsProduct(c.duty, t);
    EarnedRange(c.duty, t);
    (t as real * c.duty).Floor
  }

  function Cap(c: Config): u32
    requires Usable(c)
  {
    Share(c.window, c)
  }

  datatype State = State(budget: u32, last: u32, inFlight: bool, start: u32)

  /** meshcore_dispatcher_update_tx_budget */
  function Refilled(s: State, c: Config, now: u32): State
    requires Usable(c)
  {
    var refill := Share(Ahead(now, s.last), c);
    if refill > 0 then
      var sum := (s.budget + refill) % RANGE;
      s.(budget := if sum > Cap(c) then Cap(c) else sum, last := now)
    else s
  }

  function Charge(s: State, air: u32): u32 { if air > s.budget then s.budget else air }

  /** meshcore_dispatcher_check_send with a due packet: may the frame start now? */
  function Polled(s: State, c: Config, starts: bool, now: u32): State
    requires Usable(c)
  {
    var s1 := Refilled(s, c, now);
    if s1.budget < c.est / 2 || !starts then s1 else s1.(inFlight := true, start := now)
  }

  /** meshcore_dispatcher_tx_done with a frame in flight */
  function Finished(s: State, c: Config, success: bool, now: u32): State
    requires Usable(c)
  {
    var s1 := if success then Refilled(s, c, now) else s;
    var air := if success then Charge(s1, Ahead(now, s.start)) else 0;
    s1.(budget := s1.budget - air, inFlight := false)
  }

  class Bucket {
    const config: Config
    var txBudgetMs: u32
    var lastBudgetUpdate: u32
    var inFlight: bool
    var outboundStart: u32

    ghost predicate Valid() { Usable(config) }

    ghost function Now(): State
      reads this
    {
      State(txBudgetMs, lastBudgetUpdate, inFlight, outboundStart)
    }

    /** meshcore_dispatcher_begin, with the host's airtime budget factor and window */
    constructor (factor: real, window: u32, est: u32, now: u32)
      requires factor >= 0.0
      ensures Valid() && config == ConfigOf(factor, window, est) && Now() == State(Cap(config), now, false, 0)
    {
      var c := ConfigOf(factor, window, est);
      config := c;
      txBudgetMs := Share(c.window, c);
      lastBudgetUpdate := now;
      inFlight := false;
      outboundStart := 0;
    }

    method UpdateTxBudget(now: u32)
      requires Valid()
      modifies this
      ensures Now() == Refilled(old(Now()), config, now)
    {
      var elapsed := Ahead(now, lastBudgetUpdate);
      var maxBudget := Share(config.window, config);
      var refill := Share(elapsed, config);
      if refill > 0 {
        txBudgetMs := (txBudgetMs + refill) % RANGE;
        if txBudgetMs > maxBudget {
          txBudgetMs := maxBudget;
        }
        lastBudgetUpdate := now;
      }
    }

    method CheckSend(starts: bool, now: u32)
      requires Valid()
      modifies this
      ensures Now() == Polled(old(Now()), config, starts, now)
    {
      UpdateTxBudget(now);
      if txBudgetMs < config.est / 2 {
        return;
      }
      if !starts {
        return;
      }
      outboundStart := now;
      inFlight := true;
    }

    method TxDone(success: bool, now: u32)
      requires Valid() && inFlight
      modifies this
      ensures Now() == Finished(old(Now()), config, success, now)
    {
      if success {
        var airTime := Ahead(now, outboundStart);
        UpdateTxBudget(now);
        if airTime > txBudgetMs {
          txBudgetMs := 0;
        } else {
          txBudgetMs := txBudgetMs - airTime;
        }
      }
      inFlight := false;
    }
  }

  // ---- runs in time that does not wrap ----

  datatype Event = Poll(starts: bool) | Done(success: bool)
  datatype Stamped = At(time: nat, event: Event)

  /** The state with true times of the last refill and the current start, what was charged against
      the budget, what refills lost to the cap or to wrap-around, and the airtime and number of
      successful sends. */
  datatype Ledger = Ledger(s: State, last: nat, start: nat, charged: nat, lost: nat, airtime: nat, sends: nat)

  function Opening(c: Config, t0: nat): Ledger
    requires Usable(c)
  {
    Ledger(State(Cap(c), t0 % RANGE, false, 0), t0, t0, 0, 0, 0, 0)
  }

  function RefillLedger(l: Ledger, c: Config, t: nat): Ledger
    requires Usable(c)
  {
    var now := t % RANGE;
    RefillAtMost(l.s, c, now);
    var refill := Share(Ahead(now, l.s.last), c);
    l.(s := Refilled(l.s, c, now),
       last := if refill > 0 then t else l.last,
       lost := l.lost + (l.s.budget + refill - Refilled(l.s, c, now).budget))
  }

  /** A poll happens only with nothing in flight, a completion only with a frame in flight. */
  ghost function Step(l: Ledger, c: Config, e: Stamped): Ledger
    requires Usable(c)
  {
    var now := e.time % RANGE;
    match e.event
    case Poll(starts) =>
      if l.s.inFlight then l
      else
        var s1 := Polled(l.s, c, starts, now);
        RefillLedger(l, c, e.time).(s := s1, start := if s1.inFlight then e.time else l.start)
    case Done(success) =>
      if !l.s.inFlight then l
      else if !success then l.(s := Finished(l.s, c, false, now))
      else
        var l1 := RefillLedger(l, c, e.time);
        l1.(s := Finished(l.s, c, true, now),
            charged := l.charged + Charge(l1.s, Ahead(now, l.s.start)),
            airtime := l.airtime + (if e.time >= l.start then e.time - l.start else 0),
            sends := l.sends + 1)
  }

  ghost function After(run: seq<Stamped>, c: Config, t0: nat, m: nat): Ledger
    requires Usable(c) && m <= |run|
  {
    if m == 0 then Opening(c, t0) else Step(After(run, c, t0, m - 1), c, run[m - 1])
  }

  ghost predicate Monotone(run: seq<Stamped>, t0: nat)
  {
    && (forall i :: 0 <= i < |run| ==> t0 <= run[i].time)
    && (forall i, j :: 0 <= i <= j < |run| ==> run[i].time <= run[j].time)
  }

  function TimeAt(run: seq<Stamped>, t0: nat, m: nat): nat
    requires m <= |run|
  {
    if m == 0 then t0 else run[m - 1].time
  }

  /** What was charged, lost and left never exceed the opening budget and the duty share of the time
      up to the last refill. */
  ghost predicate Funded(l: Ledger, c: Config, t0: nat, t: nat)
    requires Usable(c)
  {
    && t0 <= l.last <= t && t0 <= l.start <= t && l.s.last == l.last % RANGE
    && (l.s.inFlight ==> l.s.start == l.start % RANGE && l.last <= l.start)
    && l.s.budget <= Cap(c)
    && (l.charged + l.lost) as real + l.s.budget as real <= Cap(c) as real + Earned(c.duty, l.last - t0)
  }

  /** The wrapped difference never exceeds the true one. */
  lemma AheadAtMost(t: nat, u: nat)
    requires u <= t
    ensures Ahead(t % RANGE, u % RANGE) <= t - u
    ensures t - u < RANGE ==> Ahead(t % RANGE, u % RANGE) == t - u
  {
    assert Ahead(t % RANGE, u % RANGE) == (t - u) % RANGE;
  }

  /** A refill adds at most its share, even when the sum wraps, and respects the cap. */
  lemma {:induction false} RefillAtMost(s: State, c: Config, now: u32)
    requires Usable(c)
    ensures s.budget <= Cap(c) ==> Refilled(s, c, now).budget <= Cap(c)
    ensures Refilled(s, c, now).budget <= s.budget + Share(Ahead(now, s.last), c)
  {
    WrapSum(s.budget, Share(Ahead(now, s.last), c));
  }

  lemma WrapSum(a: u32, b: u32)
    ensures (a + b) % RANGE == if a + b < RANGE then a + b else a + b - RANGE
  {
    ModUnique(a + b, if a + b < RANGE then a + b else a + b - RANGE, if a + b < RANGE then 0 else -1, RANGE);
  }

  lemma {:induction false} FundsGrow(d: real, spent: nat, cap: nat, budget: nat, base: nat, gap: nat, e: nat, refill: nat)
    requires 0.0 < d <= 1.0 && e <= gap && refill as real <= Earned(d, e)
    requires spent as real + budget as real <= cap as real + Earned(d, base)
    ensures spent as real + (budget + refill) as real <= cap as real + Earned(d, base + gap)
  {
    EarnedMono(d, e, gap);
    EarnedSum(d, base, gap);
  }

  lemma {:induction false} RefillFunded(l: Ledger, c: Config, t0: nat, t: nat)
    requires Usable(c) && Funded(l, c, t0, t)
    ensures var l1 := RefillLedger(l, c, t);
            && t0 <= l1.last <= t && l1.s.last == l1.last % RANGE && l1.s.budget <= Cap(c)
            && (l1.charged + l1.lost) as real + l1.s.budget as real <= Cap(c) as real + Earned(c.duty, l1.last - t0)
  {
    var now := t % RANGE;
    AheadAtMost(t, l.last);
    RefillAtMost(l.s, c, now);
    var e := Ahead(now, l.s.last);
    if Share(e, c) > 0 {
      FundsGrow(c.duty, l.charged + l.lost, Cap(c), l.s.budget, l.last - t0, t - l.last, e, Share(e, c));
      assert l.last - t0 + (t - l.last) == t - t0;
    }
  }

  lemma {:induction false} StepFunded(l: Ledger, c: Config, t0: nat, t: nat, e: Stamped)
    requires Usable(c) && Funded(l, c, t0, t) && t <= e.time
    ensures Funded(Step(l, c, e), c, t0, e.time)
  {
    RefillFunded(l, c, t0, e.time);
  }

  lemma {:induction false} RunFunded(run: seq<Stamped>, c: Config, t0: nat, m: nat)
    requires Usable(c) && Monotone(run, t0) && m <= |run|
    ensures Funded(After(run, c, t0, m), c, t0, TimeAt(run, t0, m))
  {
    if m > 0 {
      RunFunded(run, c, t0, m - 1);
      StepFunded(After(run, c, t0, m - 1), c, t0, TimeAt(run, t0, m - 1), run[m - 1]);
    }
  }

  /** The budget is within its cap, and the airtime charged within the opening budget plus the duty
      share of the elapsed time. */
  ghost predicate WithinDuty(l: Ledger, c: Config, elapsed: nat)
    requires Usable(c)
  {
    l.s.budget <= Cap(c) && l.charged as real <= (l.charged + l.lost) as real <= Cap(c) as real + Earned(c.duty, elapsed)
  }

  /** In every run the budget stays within its cap, and the airtime charged is at most the opening
      budget plus the duty share of the elapsed time. */
  lemma {:induction false} ChargedWithinDuty(run: seq<Stamped>, c: Config, t0: nat, m: nat)
    requires Usable(c) && Monotone(run, t0) && m <= |run|
    ensures TimeAt(run, t0, m) >= t0 && WithinDuty(After(run, c, t0, m), c, TimeAt(run, t0, m) - t0)
  {
    RunFunded(run, c, t0, m);
    FundedMeans(After(run, c, t0, m), c, t0, TimeAt(run, t0, m));
  }

  lemma {:induction false} FundedMeans(l: Ledger, c: Config, t0: nat, t: nat)
    requires Usable(c) && Funded(l, c, t0, t)
    ensures WithinDuty(l, c, t - t0)
  {
    EarnedMono(c.duty, l.last - t0, t - t0);
  }

  // ---- total airtime ----

  /** A successful send lasts at most the estimate of a maximal frame. */
  ghost predicate ShortSend(l: Ledger, c: Config, e: Stamped)
  {
    e.event == Done(true) && l.s.inFlight ==> e.time - l.start <= c.est
  }

  ghost predicate Short(run: seq<Stamped>, c: Config, t0: nat, k: nat)
    requires Usable(c) && k < |run|
  {
    ShortSend(After(run, c, t0, k), c, run[k])
  }

  /** While a frame is in flight, half an estimate is in the bucket; and every send is paid for at
      least by half, by a charge or by what a wrapping refill lost. */
  ghost predicate Backed(l: Ledger, c: Config)
  {
    && (l.s.inFlight ==> l.s.budget >= c.est / 2)
    && l.airtime <= 2 * (l.charged + l.lost) + l.sends
  }

  /** A refill lowers the budget only by wrapping, and then loses more than any airtime. */
  lemma {:induction false} RefillAtLeast(s: State, c: Config, now: u32)
    requires Usable(c) && s.budget <= Cap(c)
    ensures var refill := Share(Ahead(now, s.last), c);
            Refilled(s, c, now).budget >= s.budget || s.budget + refill - Refilled(s, c, now).budget >= RANGE
  {
    WrapSum(s.budget, Share(Ahead(now, s.last), c));
  }

  /** Half an estimate in the bucket pays for at least half of any frame within the estimate. */
  lemma ChargeHalf(s: State, est: u32, air: u32)
    requires s.budget >= est / 2 && air <= est
    ensures air <= 2 * Charge(s, air) + 1
  {}

  lemma {:induction false} DoneBacked(l: Ledger, c: Config, t0: nat, t: nat, e: Stamped)
    requires Usable(c) && Funded(l, c, t0, t) && t <= e.time && Backed(l, c)
    requires ShortSend(l, c, e) && e.event == Done(true) && l.s.inFlight
    ensures Backed(Step(l, c, e), c)
  {
    var now := e.time % RANGE;
    AheadAtMost(e.time, l.start);
    RefillAtMost(l.s, c, now);
    RefillAtLeast(l.s, c, now);
    if Refilled(l.s, c, now).budget >= l.s.budget {
      ChargeHalf(Refilled(l.s, c, now), c.est, Ahead(now, l.s.start));
    }
  }

  lemma {:induction false} StepBacked(l: Ledger, c: Config, t0: nat, t: nat, e: Stamped)
    requires Usable(c) && Funded(l, c, t0, t) && t <= e.time && Backed(l, c) && ShortSend(l, c, e)
    ensures Backed(Step(l, c, e), c)
  {
    if e.event == Done(true) && l.s.inFlight {
      DoneBacked(l, c, t0, t, e);
    } else if e.event.Poll? && !l.s.inFlight {
      PollBacked(l, c, e);
    }
  }

  lemma {:induction false} RefillLoses(l: Ledger, c: Config, t: nat)
    requires Usable(c)
    ensures var l1 := RefillLedger(l, c, t);
            l1.lost >= l.lost && l1.charged == l.charged && l1.airtime == l.airtime && l1.sends == l.sends
  {
    RefillAtMost(l.s, c, t % RANGE);
  }

  lemma {:induction false} PollBacked(l: Ledger, c: Config, e: Stamped)
    requires Usable(c) && Backed(l, c) && e.event.Poll? && !l.s.inFlight
    ensures Backed(Step(l, c, e), c)
  {
    RefillLoses(l, c, e.time);
    PolledBudget(l.s, c, e.event.starts, e.time % RANGE);
  }

  lemma {:induction false} PolledBudget(s: State, c: Config, starts: bool, now: u32)
    requires Usable(c) && !s.inFlight
    ensures Polled(s, c, starts, now).inFlight ==> Polled(s, c, starts, now).budget >= c.est / 2
  {}

  lemma {:induction false} RunBacked(run: seq<Stamped>, c: Config, t0: nat, m: nat)
    requires Usable(c) && Monotone(run, t0) && m <= |run|
    requires forall k :: 0 <= k < m ==> Short(run, c, t0, k)
    ensures Backed(After(run, c, t0, m), c)
  {
    if m > 0 {
      RunBacked(run, c, t0, m - 1);
      RunFunded(run, c, t0, m - 1);
      assert Short(run, c, t0, m - 1);
      StepBacked(After(run, c, t0, m - 1), c, t0, TimeAt(run, t0, m - 1), run[m - 1]);
    }
  }

  ghost predicate WithinTwiceDuty(l: Ledger, c: Config, elapsed: nat)
    requires Usable(c)
  {
    l.airtime as real <= 2.0 * (Cap(c) as real + Earned(c.duty, elapsed)) + l.sends as real
  }

  /** If every successful send lasts at most the estimate, the total airtime is at most twice the
      opening budget and duty share, plus one millisecond per send. */
  lemma {:induction false} AirtimeWithinTwiceDuty(run: seq<Stamped>, c: Config, t0: nat, m: nat)
    requires Usable(c) && Monotone(run, t0) && m <= |run|
    requires forall k :: 0 <= k < m ==> Short(run, c, t0, k)
    ensures TimeAt(run, t0, m) >= t0 && WithinTwiceDuty(After(run, c, t0, m), c, TimeAt(run, t0, m) - t0)
  {
    RunBacked(run, c, t0, m);
    ChargedWithinDuty(run, c, t0, m);
    TwiceCharged(After(run, c, t0, m), c, TimeAt(run, t0, m) - t0);
  }

  lemma {:induction false} TwiceCharged(l: Ledger, c: Config, elapsed: nat)
    requires Usable(c) && Backed(l, c) && WithinDuty(l, c, elapsed)
    ensures WithinTwiceDuty(l, c, elapsed)
  {
    TwiceReal(l.airtime, l.charged + l.lost, l.sends, Cap(c) as real + Earned(c.duty, elapsed));
  }

  lemma TwiceReal(airtime: nat, paid: nat, sends: nat, x: real)
    requires airtime <= 2 * paid + sends && paid as real <= x
    ensures airtime as real <= 2.0 * x + sends as real
  {}

  // ---- the bucket does refill ----

  /** A refill that does not wrap fills the bucket or adds the duty share of the elapsed time, less than
      a millisecond excepted; time it does not count is left for the next one. */
  lemma {:induction false} RefillEarns(s: State, c: Config, now: u32)
    requires Usable(c) && s.budget <= Cap(c) && s.budget + Share(Ahead(now, s.last), c) < RANGE
    ensures var s1, earned := Refilled(s, c, now), Earned(c.duty, Ahead(now, s.last));
            && (s1.budget == Cap(c) || s1.budget as real > s.budget as real + earned - 1.0)
            && (s1.last == now || (s1.last == s.last && earned < 1.0))
  {
    WrapSum(s.budget, Share(Ahead(now, s.last), c));
  }

  /** A bucket left alone for a window is full, exactly when the sum does not wrap. */
  lemma {:induction false} IdleIsFull(s: State, c: Config, now: u32)
    requires Usable(c) && s.budget <= Cap(c) && Ahead(now, s.last) >= c.window
    ensures Refilled(s, c, now).budget == Cap(c) <==> s.budget + Share(Ahead(now, s.last), c) < RANGE
  {
    ShareMono(c.window, Ahead(now, s.last), c);
    WrapSum(s.budget, Share(Ahead(now, s.last), c));
  }

  lemma {:induction false} ShareMono(t: u32, u: u32, c: Config)
    requires Usable(c) && t <= u
    ensures Share(t, c) <= Share(u, c)
  {
    EarnedMono(c.duty, t, u);
  }

  /** A poll starts a frame exactly when the radio does and the bucket holds half an estimate. */
  lemma {:induction false} PollStartsIff(s: State, c: Config, starts: bool, now: u32)
    requires Usable(c) && !s.inFlight
    ensures var s1 := Polled(s, c, starts, now);
            && (s1.inFlight <==> starts && 2 * Refilled(s, c, now).budget + 1 >= c.est)
            && s1.budget == Refilled(s, c, now).budget && s1.last == Refilled(s, c, now).last
            && s1.start == (if s1.inFlight then now else s.start)
  {
    if c.est % 2 == 1 { assert c.est == 2 * (c.est / 2) + 1; } else { assert c.est == 2 * (c.est / 2); }
  }

  /** A finished frame costs its airtime, as far as the refilled bucket goes; a failed one costs nothing. */
  lemma {:induction false} FinishCosts(s: State, c: Config, now: u32)
    requires Usable(c) && s.inFlight
    ensures var s1, before, air := Finished(s, c, true, now), Refilled(s, c, now).budget, Ahead(now, s.start);
            !s1.inFlight && s1.budget + (if air <= before then air else before) == before && (air >= before <==> s1.budget == 0)
    ensures Finished(s, c, false, now) == s.(inFlight := false)
  {}

  /** After an idle window the next poll starts a frame, if the full bucket is enough for one. */
  lemma {:induction false} NotStarved(s: State, c: Config, now: u32)
    requires Usable(c) && s.budget <= Cap(c) && !s.inFlight && 2 * Cap(c) + 1 >= c.est
    requires Ahead(now, s.last) >= c.window && s.budget + Share(Ahead(now, s.last), c) < RANGE
    ensures Polled(s, c, true, now).inFlight
  {
    IdleIsFull(s, c, now);
    PollStartsIff(s, c, true, now);
  }

  /** A node ever transmits exactly when the full bucket is enough: otherwise no run starts a frame. */
  lemma {:induction false} TransmitsIff(c: Config, t0: nat)
    requires Usable(c)
    ensures (exists run, m: nat :: Monotone(run, t0) && m <= |run| && After(run, c, t0, m).s.inFlight) <==> 2 * Cap(c) + 1 >= c.est
  {
    if 2 * Cap(c) + 1 >= c.est {
      var run := [At(t0, Poll(true))];
      var now := t0 % RANGE;
      PollStartsIff(Opening(c, t0).s, c, true, now);
      NoTimeNoRefill(Opening(c, t0).s, c, now);
      assert After(run, c, t0, 0) == Opening(c, t0);
      assert After(run, c, t0, 1).s == Polled(Opening(c, t0).s, c, true, now);
    } else {
      forall run: seq<Stamped>, m: nat | Monotone(run, t0) && m <= |run|
        ensures !After(run, c, t0, m).s.inFlight
      {
        NeverStarts(run, c, t0, m);
      }
    }
  }

  lemma {:induction false} NoTimeNoRefill(s: State, c: Config, now: u32)
    requires Usable(c) && s.last == now
    ensures Refilled(s, c, now) == s
  {
    assert Ahead(now, now) == 0;
    assert Earned(c.duty, 0) == 0.0;
  }

  lemma {:induction false} NeverStarts(run: seq<Stamped>, c: Config, t0: nat, m: nat)
    requires Usable(c) && Monotone(run, t0) && m <= |run| && 2 * Cap(c) + 1 < c.est
    ensures !After(run, c, t0, m).s.inFlight
  {
    if m > 0 {
      NeverStarts(run, c, t0, m - 1);
      RunFunded(run, c, t0, m - 1);
      var l, now := After(run, c, t0, m - 1), run[m - 1].time % RANGE;
      RefillAtMost(l.s, c, now);
      if run[m - 1].event.Poll? { PollStartsIff(l.s, c, run[m - 1].event.starts, now); }
    }
  }

  // ---- what a run earns ----

  /** Budget is lost only to a full bucket or a wrapping sum. */
  lemma {:induction false} LostOnlyAtCap(l: Ledger, c: Config, t: nat)
    requires Usable(c) && RefillLedger(l, c, t).lost > l.lost
    ensures RefillLedger(l, c, t).s.budget == Cap(c) || l.s.budget + Share(Ahead(t % RANGE, l.s.last), c) >= RANGE
  {
    WrapSum(l.s.budget, Share(Ahead(t % RANGE, l.s.last), c));
  }

  /** No event comes 2^32 ms or more after the last refill. */
  ghost predicate Prompt(run: seq<Stamped>, c: Config, t0: nat, k: nat)
    requires Usable(c) && k < |run|
  {
    run[k].time - After(run, c, t0, k).last < RANGE
  }

  /** The duty share of the time up to the last refill is all there: charged, lost at the cap, or in the
      bucket; each event rounds away less than a millisecond. */
  ghost predicate Accounted(l: Ledger, c: Config, t0: nat, events: nat)
    requires Usable(c)
  {
    l.last >= t0 && (l.charged + l.lost + l.s.budget) as real + events as real >= Cap(c) as real + Earned(c.duty, l.last - t0)
  }

  lemma {:induction false} RefillAccounted(l: Ledger, c: Config, t0: nat, t: nat, events: nat)
    requires Usable(c) && Funded(l, c, t0, t) && Accounted(l, c, t0, events) && t - l.last < RANGE
    ensures Accounted(RefillLedger(l, c, t), c, t0, events + 1)
  {
    AheadAtMost(t, l.last);
    RefillAtMost(l.s, c, t % RANGE);
    EarnedSum(c.duty, l.last - t0, t - l.last);
    assert l.last - t0 + (t - l.last) == t - t0;
  }

  lemma {:induction false} StepAccounted(l: Ledger, c: Config, t0: nat, e: Stamped, events: nat)
    requires Usable(c) && Funded(l, c, t0, e.time) && Accounted(l, c, t0, events) && e.time - l.last < RANGE
    ensures Accounted(Step(l, c, e), c, t0, events + 1)
  {
    RefillAccounted(l, c, t0, e.time, events);
    var now := e.time % RANGE;
    match e.event
    case Poll(starts) =>
      if !l.s.inFlight { PollStartsIff(l.s, c, starts, now); }
    case Done(success) =>
      if l.s.inFlight { FinishCosts(l.s, c, now); }
  }

  lemma {:induction false} FundedLater(l: Ledger, c: Config, t0: nat, t: nat, u: nat)
    requires Usable(c) && Funded(l, c, t0, t) && t <= u
    ensures Funded(l, c, t0, u)
  {}

  /** In every run the budget that is charged, lost at the cap or left is at least the opening budget and
      the duty share of the time up to the last refill, within a millisecond per event. */
  lemma {:induction false} EarnsDuty(run: seq<Stamped>, c: Config, t0: nat, m: nat)
    requires Usable(c) && Monotone(run, t0) && m <= |run|
    requires forall k :: 0 <= k < m ==> Prompt(run, c, t0, k)
    ensures Accounted(After(run, c, t0, m), c, t0, m)
  {
    if m > 0 {
      EarnsDuty(run, c, t0, m - 1);
      RunFunded(run, c, t0, m - 1);
      assert Prompt(run, c, t0, m - 1);
      FundedLater(After(run, c, t0, m - 1), c, t0, TimeAt(run, t0, m - 1), run[m - 1].time);
      StepAccounted(After(run, c, t0, m - 1), c, t0, run[m - 1], m - 1);
    } else {
      assert Earned(c.duty, 0) == 0.0;
    }
  }
}
