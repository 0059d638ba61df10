/** The ring of eight expected acknowledgements of meshcore_runtime_pending.c. */
module PendingAcks {
  import opened Words
  import opened Clock32

  const TABLE: nat := 8
  const TIMEOUT: nat := 10000

  /** (long)(now - expires) >= 0 with a 32-bit long */
  predicate TimeReached(now: u32, expires: u32) { Signed(Ahead(now, expires)) >= 0 }

  /** `note` stands for the target and attempt, which the ring only stores and hands back. */
  datatype Slot = Empty | Waiting(crc: u32, expires: u32, note: nat)
  datatype Ring = Ring(slots: seq<Slot>, next: nat)

  predicate Sized(r: Ring) { |r.slots| == TABLE && r.next < TABLE }

  predicate Expired(s: Slot, now: u32) { s.Waiting? && TimeReached(now, s.expires) }
  predicate Live(s: Slot, now: u32) { s.Waiting? && !TimeReached(now, s.expires) }

  /** The i-th slot from `next` on, cyclically. */
  function Nth(r: Ring, i: nat): Slot
    requires Sized(r)
  {
    r.slots[(r.next + i) % TABLE]
  }

  /** The first slot from `next` on, cyclically, that is empty or expired; `next` when all are live. */
  function Choose(r: Ring, now: u32, i: nat): (k: nat)
    requires Sized(r) && i <= TABLE
    ensures k < TABLE
    decreases TABLE - i
  {
    if i == TABLE then r.next
    else if !Live(Nth(r, i), now) then (r.next + i) % TABLE
    else Choose(r, now, i + 1)
  }

  function Register(r: Ring, crc: u32, note: nat, now: u32): (r': Ring)
    requires Sized(r)
    ensures Sized(r')
  {
    if crc == 0 then r
    else
      var k := Choose(r, now, 0);
      Ring(r.slots[k := Waiting(crc, Later(now, TIMEOUT), note)], (k + 1) % TABLE)
  }

  /** The scan of expected_ack_handle from slot i: expired slots are emptied up to the first match. */
  function Match(slots: seq<Slot>, crc: u32, now: u32, i: nat): (r: (seq<Slot>, Option<nat>))
    requires i <= |slots|
    ensures |r.0| == |slots|
    decreases |slots| - i
  {
    if i == |slots| then (slots, None)
    else if Expired(slots[i], now) then Match(slots[i := Empty], crc, now, i + 1)
    else if slots[i].Waiting? && slots[i].crc == crc then (slots[i := Empty], Some(slots[i].note))
    else Match(slots, crc, now, i + 1)
  }

  function Swept(slots: seq<Slot>, now: u32): (r: seq<Slot>)
    ensures |r| == |slots| && forall k :: 0 <= k < |r| ==> r[k] == if Expired(slots[k], now) then Empty else slots[k]
  {
    seq(|slots|, k requires 0 <= k < |slots| => if Expired(slots[k], now) then Empty else slots[k])
  }

  class AckRing {
    const table: array<Slot>
    var next: nat

    ghost predicate Valid()
      reads this
    {
      table.Length == TABLE && next < TABLE
    }

    ghost function Now(): (r: Ring)
      requires Valid()
      reads this, table
      ensures Sized(r)
    {
      Ring(table[..], next)
    }

    constructor ()
      ensures Valid() && fresh(table) && Now() == Initial()
    {
      table := new Slot[TABLE](_ => Empty);
      next := 0;
    }

    /** meshcore_runtime_expected_ack_register */
    method Expect(crc: u32, note: nat, now: u32)
      requires Valid()
      modifies this, table
      ensures Valid() && Now() == Register(old(Now()), crc, note, now)
    {
      var slot := next;
      if crc == 0 {
        return;
      }
      for i := 0 to TABLE
        invariant slot == next && Choose(Now(), now, i) == Choose(Now(), now, 0)
      {
        var idx := (next + i) % TABLE;
        if !table[idx].Waiting? || TimeReached(now, table[idx].expires) {
          slot := idx;
          break;
        }
      }
      table[slot] := Waiting(crc, Later(now, TIMEOUT), note);
      next := (slot + 1) % TABLE;
    }

    /** meshcore_runtime_expected_ack_handle; the result is what is handed to the host */
    method Handle(crc: u32, now: u32) returns (published: Option<nat>)
      requires Valid()
      modifies table
      ensures Valid() && next == old(next)
      ensures (Now().slots, published) == Match(old(Now()).slots, crc, now, 0)
    {
      for i := 0 to TABLE
        invariant Match(table[..], crc, now, i) == Match(old(table[..]), crc, now, 0)
      {
        if !table[i].Waiting? {
          continue;
        }
        if TimeReached(now, table[i].expires) {
          table[i] := Empty;
          continue;
        }
        if table[i].crc != crc {
          continue;
        }
        published := Some(table[i].note);
        table[i] := Empty;
        return;
      }
      published := None;
    }

    /** meshcore_runtime_expected_ack_cleanup */
    method Cleanup(now: u32)
      requires Valid()
      modifies table
      ensures Valid() && Now() == old(Now()).(slots := Swept(old(Now()).slots, now))
    {
      for i := 0 to TABLE
        invariant forall k :: 0 <= k < i ==> table[k] == if Expired(old(table[k]), now) then Empty else old(table[k])
        invariant forall k :: i <= k < TABLE ==> table[k] == old(table[k])
      {
        if !table[i].Waiting? {
          continue;
        }
        if TimeReached(now, table[i].expires) {
          table[i] := Empty;
        }
      }
      assert table[..] == Swept(old(table[..]), now);
    }
  }

  function Initial(): (r: Ring)
    ensures Sized(r)
  {
    Ring(seq(TABLE, _ => Empty), 0)
  }

  // ---- what one operation does ----

  /** A live entry is overwritten only when all eight are live. */
  lemma {:induction false} OverwriteOnlyWhenFull(r: Ring, now: u32, i: nat)
    requires Sized(r) && i <= TABLE
    ensures var k := Choose(r, now, i);
            Live(r.slots[k], now) ==> forall j :: i <= j < TABLE ==> Live(Nth(r, j), now)
    decreases TABLE - i
  {
    if i < TABLE { OverwriteOnlyWhenFull(r, now, i + 1); }
  }

  ghost predicate AllLive(r: Ring, now: u32)
  {
    forall k :: 0 <= k < |r.slots| ==> Live(r.slots[k], now)
  }

  lemma {:induction false} Place(r: Ring, m: nat) returns (j: nat)
    requires Sized(r) && m < TABLE
    ensures j < TABLE && Nth(r, j) == r.slots[m]
  {
    j := if m >= r.next then m - r.next else m + TABLE - r.next;
  }

  lemma {:induction false} EvictionMeansFull(r: Ring, crc: u32, note: nat, now: u32, k: nat)
    requires Sized(r) && k < TABLE && Live(r.slots[k], now) && Register(r, crc, note, now).slots[k] != r.slots[k]
    ensures AllLive(r, now)
  {
    OverwriteOnlyWhenFull(r, now, 0);
    forall m | 0 <= m < TABLE
      ensures Live(r.slots[m], now)
    {
      var j := Place(r, m);
      assert Live(Nth(r, j), now);
    }
  }

  /** Skipping slot i, emptied if it had expired, does not change what is taken. */
  lemma {:induction false} TakenFrom(slots: seq<Slot>, rest: seq<Slot>, s': seq<Slot>, crc: u32, now: u32, i: nat, k: nat)
    requires i < k < |slots| == |rest| == |s'| && Taken(rest, s', crc, now, i + 1, k)
    requires rest == if Expired(slots[i], now) then slots[i := Empty] else slots
    requires !(Live(slots[i], now) && slots[i].crc == crc)
    ensures Taken(slots, s', crc, now, i, k)
  {
    forall j | 0 <= j < |slots| && j != k && Live(slots[j], now)
      ensures s'[j] == slots[j]
    {
      assert rest[j] == slots[j];
    }
    forall j | i <= j < k && Live(slots[j], now)
      ensures slots[j].crc != crc
    {
      assert rest[j] == slots[j];
    }
  }

  /** The scan publishes the lowest-numbered live match and empties it; it keeps every other live entry. */
  lemma {:induction false} MatchMeans(slots: seq<Slot>, crc: u32, now: u32, i: nat)
    requires i <= |slots|
    ensures var (s', p) := Match(slots, crc, now, i);
            && (forall k :: 0 <= k < |slots| ==> s'[k] == slots[k] || s'[k] == Empty)
            && (p.None? ==> forall k :: i <= k < |slots| && Live(slots[k], now) ==> slots[k].crc != crc)
            && (p.None? ==> forall k :: 0 <= k < |slots| && Live(slots[k], now) ==> s'[k] == slots[k])
            && (p.Some? ==> exists k :: i <= k < |slots| && Taken(slots, s', crc, now, i, k) && p.value == slots[k].note)
    decreases |slots| - i
  {
    if i < |slots| {
      var rest := if Expired(slots[i], now) then slots[i := Empty] else slots;
      var hit := slots[i].Waiting? && !Expired(slots[i], now) && slots[i].crc == crc;
      if hit {
        assert Taken(slots, slots[i := Empty], crc, now, i, i);
      } else {
        MatchMeans(rest, crc, now, i + 1);
        var (s', p) := Match(rest, crc, now, i + 1);
        if p.Some? {
          var k :| i + 1 <= k < |slots| && Taken(rest, s', crc, now, i + 1, k) && p.value == rest[k].note;
          TakenFrom(slots, rest, s', crc, now, i, k);
        }
      }
    }
  }

  /** Slot k is the first live match from slot i, and the only live slot to be emptied. */
  ghost predicate Taken(slots: seq<Slot>, s': seq<Slot>, crc: u32, now: u32, i: nat, k: nat)
    requires i <= k < |slots| == |s'|
  {
    && Live(slots[k], now) && slots[k].crc == crc && s'[k] == Empty
    && (forall j :: i <= j < k && Live(slots[j], now) ==> slots[j].crc != crc)
    && (forall j :: 0 <= j < |slots| && j != k && Live(slots[j], now) ==> s'[j] == slots[j])
  }

  // ---- every run ----

  datatype Event = Sent(crc: u32) | AckArrived(crc: u32) | Timer

  /** The event and its time, in milliseconds that do not wrap; the code sees it modulo 2^32. */
  datatype Stamped = At(time: nat, event: Event)

  function Clock(s: Stamped): u32 { s.time % RANGE }

  ghost function After(run: seq<Stamped>, m: nat): (r: Ring)
    requires m <= |run|
    ensures Sized(r)
  {
    if m == 0 then Initial()
    else
      var r, s := After(run, m - 1), run[m - 1];
      match s.event
      case Sent(crc) => Register(r, crc, m - 1, Clock(s))
      case AckArrived(crc) => r.(slots := Match(r.slots, crc, Clock(s), 0).0)
      case Timer => r.(slots := Swept(r.slots, Clock(s)))
  }

  /** Which registration, named by the event that made it, event k publishes. */
  ghost function Published(run: seq<Stamped>, k: nat): Option<nat>
    requires k < |run|
  {
    if run[k].event.AckArrived? then Match(After(run, k).slots, run[k].event.crc, Clock(run[k]), 0).1 else None
  }

  /** The slot was filled by event `note` and by no later one. */
  ghost predicate Genuine(run: seq<Stamped>, m: nat, s: Slot)
    requires m <= |run|
  {
    s.Waiting? ==>
      && s.note < m && run[s.note].event == Sent(s.crc) && s.crc != 0
      && s.expires == Later(Clock(run[s.note]), TIMEOUT)
  }

  ghost predicate Distinct(slots: seq<Slot>)
  {
    forall j, k :: 0 <= j < k < |slots| && slots[j].Waiting? && slots[k].Waiting? ==> slots[j].note != slots[k].note
  }

  ghost predicate Holds(slots: seq<Slot>, n: nat)
  {
    exists k :: 0 <= k < |slots| && slots[k].Waiting? && slots[k].note == n
  }

  lemma {:induction false} RunGenuine(run: seq<Stamped>, m: nat)
    requires m <= |run|
    ensures forall k :: 0 <= k < TABLE ==> Genuine(run, m, After(run, m).slots[k])
    ensures Distinct(After(run, m).slots)
  {
    if m > 0 {
      RunGenuine(run, m - 1);
      var r, s := After(run, m - 1), run[m - 1];
      if s.event.AckArrived? {
        MatchMeans(r.slots, s.event.crc, Clock(s), 0);
      }
      forall k | 0 <= k < TABLE
        ensures Genuine(run, m, After(run, m).slots[k])
      {
        assert Genuine(run, m - 1, r.slots[k]);
      }
      if s.event.Sent? {
        forall k | 0 <= k < TABLE && r.slots[k].Waiting?
          ensures r.slots[k].note != m - 1
        {
          assert Genuine(run, m - 1, r.slots[k]);
        }
      }
    }
  }

  /** Once gone, a registration never comes back. */
  lemma {:induction false} GoneForGood(run: seq<Stamped>, n: nat, m: nat, k: nat)
    requires n < m <= k <= |run| && !Holds(After(run, m).slots, n)
    ensures !Holds(After(run, k).slots, n)
    decreases k
  {
    if m < k {
      GoneForGood(run, n, m, k - 1);
      var r, s := After(run, k - 1), run[k - 1];
      if s.event.AckArrived? {
        MatchMeans(r.slots, s.event.crc, Clock(s), 0);
      }
      var r' := After(run, k);
      forall j | 0 <= j < |r'.slots| && r'.slots[j].Waiting?
        ensures r'.slots[j].note != n
      {
        assert r'.slots[j] == r.slots[j] || r'.slots[j].note == k - 1;
      }
    }
  }

  /** Whatever is published was registered before under that very CRC, is not expired by the clock
      the code reads, and has left the ring. */
  lemma {:induction false} PublishedIsGenuine(run: seq<Stamped>, k: nat)
    requires k < |run| && Published(run, k).Some?
    ensures var n := Published(run, k).value;
            && n < k && run[k].event.AckArrived? && run[n].event == Sent(run[k].event.crc)
            && !TimeReached(Clock(run[k]), Later(Clock(run[n]), TIMEOUT))
            && Holds(After(run, k).slots, n) && !Holds(After(run, k + 1).slots, n)
  {
    RunGenuine(run, k);
    var slots, crc := After(run, k).slots, run[k].event.crc;
    var s', n := After(run, k + 1).slots, Published(run, k).value;
    MatchMeans(slots, crc, Clock(run[k]), 0);
    var j :| 0 <= j < |slots| && Taken(slots, s', crc, Clock(run[k]), 0, j) && n == slots[j].note;
    assert Genuine(run, k, slots[j]);
    forall i | 0 <= i < |s'| && s'[i].Waiting?
      ensures s'[i].note != n
    {
      assert s'[i] == slots[i] && i != j;
    }
  }

  /** Every registration is published at most once in any run. */
  lemma {:induction false} PublishedOnce(run: seq<Stamped>, j: nat, k: nat)
    requires j < k < |run| && Published(run, j).Some? && Published(run, k).Some?
    ensures Published(run, j) != Published(run, k)
  {
    PublishedIsGenuine(run, j);
    PublishedIsGenuine(run, k);
    var n := Published(run, j).value;
    GoneForGood(run, n, j + 1, k);
  }

  // ---- expiry in time that does not wrap ----

  /** The 32-bit comparison agrees with true time exactly when the true age is short of the timeout
      or past it by less than half the clock, modulo the clock. */
  lemma ExpiryExact(sent: nat, t: nat)
    requires sent <= t
    ensures (TimeReached(t % RANGE, Later(sent % RANGE, TIMEOUT)) <==> t >= sent + 10000)
            <==> (t < sent + TIMEOUT || (t - sent - TIMEOUT) % RANGE < HALF)
  {
    AheadOfExpiry(sent, t);
  }

  lemma {:induction false} AheadOfExpiry(sent: nat, t: nat)
    ensures Ahead(t % RANGE, Later(sent % RANGE, TIMEOUT)) == (t - sent - TIMEOUT) % RANGE
  {
    var q, k := t / RANGE, sent / RANGE;
    var now, exp := t % RANGE, Later(sent % RANGE, TIMEOUT);
    var j := (sent % RANGE + TIMEOUT) / RANGE;
    assert now - exp == (t - sent - TIMEOUT) + (k + j - q) * RANGE;
    ModShift(t - sent - TIMEOUT, k + j - q, RANGE);
  }

  ghost predicate Monotone(run: seq<Stamped>)
  {
    forall i, j :: 0 <= i <= j < |run| ==> run[i].time <= run[j].time
  }

  /** A timer event within half a clock of the expiry removes the registration for good. */
  lemma {:induction false} TimerRemoves(run: seq<Stamped>, n: nat, m: nat)
    requires Monotone(run) && n < m < |run| && run[m].event.Timer?
    requires run[n].time + TIMEOUT <= run[m].time < run[n].time + TIMEOUT + HALF
    ensures !Holds(After(run, m + 1).slots, n)
  {
    RunGenuine(run, m);
    ExpiryExact(run[n].time, run[m].time);
    var slots, s' := After(run, m).slots, After(run, m + 1).slots;
    forall k | 0 <= k < |s'| && s'[k].Waiting?
      ensures s'[k].note != n
    {
      assert Genuine(run, m, slots[k]) && s'[k] == slots[k];
    }
  }

  /** Never after expiry: a registration is published before its timeout, unless its age past the
      timeout lies in the upper half of the clock and no timer event ran within half a clock. */
  lemma {:induction false} NeverAfterExpiry(run: seq<Stamped>, k: nat)
    requires Monotone(run) && k < |run| && Published(run, k).Some?
    ensures var n := Published(run, k).value;
            n < k &&
            (|| run[k].time < run[n].time + TIMEOUT
             || (run[k].time >= run[n].time + TIMEOUT
                 && (run[k].time - run[n].time - TIMEOUT) % RANGE >= HALF
                 && forall m :: n < m < k && run[m].event.Timer?
                      ==> !(run[n].time + TIMEOUT <= run[m].time < run[n].time + TIMEOUT + HALF)))
  {
    PublishedIsGenuine(run, k);
    var n := Published(run, k).value;
    ExpiryExact(run[n].time, run[k].time);
    forall m | n < m < k && run[m].event.Timer?
      ensures !(run[n].time + TIMEOUT <= run[m].time < run[n].time + TIMEOUT + HALF)
    {
      if run[n].time + TIMEOUT <= run[m].time < run[n].time + TIMEOUT + HALF {
        TimerRemoves(run, n, m);
        GoneForGood(run, n, m + 1, k);
      }
    }
  }

  /** The exception is real: half a clock after the timeout, with no timer event in between, the
      acknowledgement is still published. */
  lemma {:induction false} LatePublication()
    ensures Published([At(0, Sent(7)), At(TIMEOUT + HALF, AckArrived(7))], 1) == Some(0)
  {
    var run := [At(0, Sent(7)), At(TIMEOUT + HALF, AckArrived(7))];
    var r := After(run, 0);
    assert r == Initial();
    assert Choose(r, 0, 0) == 0;
    var r1 := After(run, 1);
    assert r1 == Register(r, 7, 0, 0);
    assert r1.slots[0] == Waiting(7, 10000, 0);
    ExpiryExact(0, TIMEOUT + HALF);
    assert Match(r1.slots, 7, Clock(run[1]), 0).1 == Some(0);
  }

  // ---- an acknowledgement in time is delivered ----

  /** Between events n and k nothing disturbs registration n: no acknowledgement of its CRC, no event
      after its expiry, and every other registration finds a slot that is not live. */
  ghost predicate Undisturbed(run: seq<Stamped>, n: nat, k: nat)
    requires n < k <= |run| && run[n].event.Sent?
  {
    forall m {:trigger run[m]} :: n < m < k ==>
      && !TimeReached(Clock(run[m]), Later(Clock(run[n]), TIMEOUT))
      && (run[m].event.AckArrived? ==> run[m].event.crc != run[n].event.crc)
      && (run[m].event.Sent? ==> !AllLive(After(run, m), Clock(run[m])))
  }

  lemma {:induction false} Survives(run: seq<Stamped>, n: nat, k: nat)
    requires n < k <= |run| && run[n].event.Sent? && run[n].event.crc != 0 && Undisturbed(run, n, k)
    ensures Holds(After(run, k).slots, n)
    decreases k
  {
    if k == n + 1 {
      var r := After(run, n);
      var j := Choose(r, Clock(run[n]), 0);
      assert After(run, k).slots[j].note == n;
    } else {
      assert Undisturbed(run, n, k - 1);
      Survives(run, n, k - 1);
      RunGenuine(run, k - 1);
      var r, s := After(run, k - 1), run[k - 1];
      var j :| 0 <= j < |r.slots| && r.slots[j].Waiting? && r.slots[j].note == n;
      assert Genuine(run, k - 1, r.slots[j]) && Live(r.slots[j], Clock(s));
      match s.event
      case Sent(crc) =>
        if After(run, k).slots[j] != r.slots[j] {
          EvictionMeansFull(r, crc, k - 1, Clock(s), j);
        }
      case AckArrived(crc) =>
        MatchMeans(r.slots, crc, Clock(s), 0);
      case Timer =>
      assert After(run, k).slots[j] == r.slots[j];
    }
  }

  /** An acknowledgement that arrives before expiry publishes its registration, when no other live
      registration carries the same CRC. */
  lemma {:induction false} AckPublishes(run: seq<Stamped>, n: nat, k: nat)
    requires n < k < |run| && run[n].event.Sent? && run[n].event.crc != 0 && Undisturbed(run, n, k)
    requires run[k].event == AckArrived(run[n].event.crc)
    requires !TimeReached(Clock(run[k]), Later(Clock(run[n]), TIMEOUT))
    requires forall m :: 0 <= m < k && m != n ==> run[m].event != run[n].event
    ensures Published(run, k) == Some(n)
  {
    Survives(run, n, k);
    RunGenuine(run, k);
    var slots := After(run, k).slots;
    MatchMeans(slots, run[k].event.crc, Clock(run[k]), 0);
    var j :| 0 <= j < |slots| && slots[j].Waiting? && slots[j].note == n;
    assert Genuine(run, k, slots[j]) && Live(slots[j], Clock(run[k]));
    PublishedIsGenuine(run, k);
  }

  /** Exactly when an acknowledgement publishes an undisturbed registration: in time, or so late that
      its age past the timeout lies in the upper half of the clock again. */
  lemma {:induction false} AckPublishesIff(run: seq<Stamped>, n: nat, k: nat)
    requires Monotone(run) && n < k < |run| && run[n].event.Sent? && run[n].event.crc != 0 && Undisturbed(run, n, k)
    requires run[k].event == AckArrived(run[n].event.crc)
    requires forall m :: 0 <= m < k && m != n ==> run[m].event != run[n].event
    ensures Published(run, k) == Some(n) <==>
            || run[k].time < run[n].time + TIMEOUT
            || (run[k].time - run[n].time - TIMEOUT) % RANGE >= HALF
  {
    ExpiryExact(run[n].time, run[k].time);
    if TimeReached(Clock(run[k]), Later(Clock(run[n]), TIMEOUT)) {
      if Published(run, k).Some? { PublishedIsGenuine(run, k); }
    } else {
      AckPublishes(run, n, k);
    }
  }

  // ---- which slot is taken ----

  /** A registration takes the first slot from `next` on, cyclically, that is not live, and only with
      eight live ones the slot `next` itself; the following one starts behind it. */
  lemma {:induction false} RegistersFirstFree(r: Ring, crc: u32, note: nat, now: u32, j: nat)
    requires Sized(r) && crc != 0 && j <= 8
    requires forall i :: 0 <= i < j ==> Live(Nth(r, i), now)
    requires j < 8 ==> !Live(Nth(r, j), now)
    ensures var k := (r.next + j) % 8;
            Register(r, crc, note, now) == Ring(r.slots[k := Waiting(crc, (now + 10000) % 0x1_0000_0000, note)], (k + 1) % 8)
  {
    ChooseSkips(r, now, 0, j);
    if j == 8 { assert (r.next + 8) % 8 == r.next; }
  }

  lemma {:induction false} ChooseSkips(r: Ring, now: u32, i: nat, j: nat)
    requires Sized(r) && i <= j <= TABLE && (forall m :: i <= m < j ==> Live(Nth(r, m), now))
    ensures Choose(r, now, i) == Choose(r, now, j)
    decreases j - i
  {
    if i < j { ChooseSkips(r, now, i + 1, j); }
  }
}
