/** 32-bit millisecond clocks that wrap, compared by signed difference. */
module Clock32 {
  import opened Words

  const RANGE: nat := 0x1_0000_0000
  const HALF: nat := 0x8000_0000

  /** t - now in uint32_t arithmetic: how far ahead t lies, going forward. */
  function Ahead(t: u32, now: u32): u32
  {
    (t - now) % RANGE
  }

  /** (int32_t)x */
  function Signed(x: u32): int
  {
    if x < HALF then x else x - RANGE
  }

  /** (int32_t)(t - now) <= 0 */
  predicate Due(t: u32, now: u32)
  {
    Signed(Ahead(t, now)) <= 0
  }

  /** The clock k milliseconds after now. */
  function Later(now: u32, k: nat): u32 { (now + k) % RANGE }
}

/** What a wake-up time should be, and the fold the four deadline functions share. */
module Deadline {
  import opened Words
  import opened Clock32

  /** Nothing pending: no deadline. Something due: now. Otherwise the least forward offset. */
  ghost predicate IsDeadline(now: u32, items: set<u32>, r: Option<u32>)
  {
    match r
    case None => items == {}
    case Some(d) =>
      if exists t :: t in items && Due(t, now) then d == now
      else d in items && forall t :: t in items ==> Ahead(d, now) <= Ahead(t, now)
  }

  /** A fold that has met nothing due so far. */
  ghost predicate IsWait(now: u32, items: set<u32>, r: Option<u32>)
  {
    IsDeadline(now, items, r) && forall t :: t in items ==> !Due(t, now)
  }

  /** An item that is not due in now's sense lies less than half the clock ahead. */
  lemma AheadOf(t: u32, now: u32)
    ensures !Due(t, now) <==> 0 < Ahead(t, now) < HALF
    ensures Later(now, Ahead(t, now)) == t
  {
    AheadCases(t, now);
    LaterCases(now, Ahead(t, now));
  }

  /** The wrapped difference, by cases. */
  lemma AheadCases(t: u32, now: u32)
    ensures Ahead(t, now) == if t >= now then t - now else t - now + RANGE
  {
    ModUnique(t - now, if t >= now then t - now else t - now + RANGE, if t >= now then 0 else 1, RANGE);
  }

  /** Comparing two waits by signed difference is comparing their offsets. */
  lemma CompareAhead(a: u32, b: u32, now: u32)
    requires !Due(a, now) && !Due(b, now)
    ensures Signed(Ahead(a, b)) < 0 <==> Ahead(a, now) < Ahead(b, now)
  {
    AheadCases(a, now);
    AheadCases(b, now);
    AheadCases(a, b);
  }

  /** The second half of deadline_accumulate. */
  method Sooner(now: u32, ghost items: set<u32>, acc: Option<u32>, candidate: u32) returns (r: Option<u32>)
    requires IsWait(now, items, acc) && !Due(candidate, now)
    ensures IsWait(now, items + {candidate}, r)
  {
    if acc.None? {
      return Some(candidate);
    }
    CompareAhead(candidate, acc.value, now);
    if Signed(Ahead(candidate, acc.value)) < 0 {
      r := Some(candidate);
    } else {
      r := acc;
    }
  }

  /** A candidate that may be accumulated in place of a whole group of items. */
  ghost predicate StandsFor(now: u32, group: set<u32>, candidate: u32)
  {
    if exists t :: t in group && Due(t, now) then Due(candidate, now) else IsDeadline(now, group, Some(candidate))
  }

  lemma {:induction false} StandIns(now: u32, group: set<u32>, candidate: u32)
    ensures StandsFor(now, {candidate}, candidate)
    ensures IsDeadline(now, group, Some(candidate)) ==> StandsFor(now, group, candidate)
  {
    assert Due(now, now);
    assert candidate in {candidate};
  }

  /** meshcore_runtime_deadline_accumulate and meshcore_dispatcher_deadline_accumulate */
  method Accumulate(now: u32, ghost items: set<u32>, ghost group: set<u32>, acc: Option<u32>, candidate: u32)
    returns (hit: bool, r: Option<u32>)
    requires IsWait(now, items, acc) && StandsFor(now, group, candidate)
    ensures hit ==> r == Some(now) && exists t :: t in group && Due(t, now)
    ensures !hit ==> IsWait(now, items + group, r)
  {
    if Signed(Ahead(candidate, now)) <= 0 {
      return true, Some(now);
    }
    r := Sooner(now, items, acc, candidate);
    hit := false;
  }

  ghost predicate SomethingDue(items: set<u32>, at: u32)
  {
    exists t :: t in items && Due(t, at)
  }

  lemma DueLater(t: u32, now: u32, k: nat)
    requires !Due(t, now) && k <= Ahead(t, now)
    ensures Due(t, Later(now, k)) <==> k == Ahead(t, now)
  {
    AheadCases(t, now);
    LaterCases(now, k);
    AheadCases(t, Later(now, k));
  }

  lemma LaterCases(now: u32, k: nat)
    requires k < RANGE
    ensures Later(now, k) == if now + k < RANGE then now + k else now + k - RANGE
  {
    ModUnique(now + k, if now + k < RANGE then now + k else now + k - RANGE, if now + k < RANGE then 0 else -1, RANGE);
  }

  /** The deadline is the first moment, counting forward from now across the wrap, at which
      anything pending is due: never later, never earlier. */
  lemma {:induction false} FirstDueMoment(now: u32, items: set<u32>, d: u32)
    requires IsDeadline(now, items, Some(d))
    ensures SomethingDue(items, d)
    ensures forall k: nat :: k < Ahead(d, now) ==> !SomethingDue(items, Later(now, k))
    ensures forall r :: IsDeadline(now, items, r) ==> r == Some(d)
  {
    if t :| t in items && Due(t, now) {
      assert d == now;
    } else {
      AheadOf(d, now);
      DueLater(d, now, Ahead(d, now));
      forall k: nat | k < Ahead(d, now)
        ensures !SomethingDue(items, Later(now, k))
      {
        forall t | t in items
          ensures !Due(t, Later(now, k))
        {
          DueLater(t, now, k);
        }
      }
      forall r | IsDeadline(now, items, r)
        ensures r == Some(d)
      {
        AheadOf(r.value, now);
      }
    }
  }
}
