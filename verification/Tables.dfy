/** The duplicate filter of meshcore_tables.c: a ring of 160 packet hashes, an all-zero cell
    standing for "empty". An 8-byte hash is one value here. */
module Tables {
  import opened Words

  const SLOTS: nat := 160
  const COUNTER: nat := 0x1_0000_0000

  datatype Call = Seen(hash: u64, direct: bool) | Clear(hash: u64)

  /** The cells from oldest to newest, and the two duplicate counters. */
  datatype State = State(window: seq<u64>, direct: u32, flood: u32)

  ghost predicate Distinct(w: seq<u64>)
  {
    forall j, k :: 0 <= j < k < |w| && w[j] != 0 ==> w[j] != w[k]
  }

  ghost predicate Good(s: State)
  {
    |s.window| == SLOTS && Distinct(s.window)
  }

  function Count(s: State, direct: bool): State
  {
    if direct then s.(direct := (s.direct + 1) % COUNTER) else s.(flood := (s.flood + 1) % COUNTER)
  }

  function Zeroed(w: seq<u64>, h: u64): (r: seq<u64>)
    ensures |r| == |w| && forall k :: 0 <= k < |w| ==> r[k] == if w[k] == h then 0 else w[k]
  {
    seq(|w|, k requires 0 <= k < |w| => if w[k] == h then 0 else w[k])
  }

  function Apply(s: State, c: Call): State
    requires |s.window| == SLOTS
  {
    match c
    case Seen(h, direct) =>
      if h in s.window then Count(s, direct) else s.(window := s.window[1..] + [h])
    case Clear(h) => s.(window := Zeroed(s.window, h))
  }

  function Answer(s: State, c: Call): bool { c.Seen? && c.hash in s.window }

  lemma {:induction false} ApplyGood(s: State, c: Call)
    requires Good(s)
    ensures Good(Apply(s, c))
  {
    if c.Clear? {
      var w, r := s.window, Zeroed(s.window, c.hash);
      forall j, k | 0 <= j < k < |r| && r[j] != 0
        ensures r[j] != r[k]
      {
        assert w[j] != 0 && w[j] != w[k];
      }
    }
  }

  lemma CellInWindow(h: seq<u64>, k: nat, i: nat)
    requires k <= |h| && i < |h|
    ensures h[i] in h[k..] + h[..k]
  {
    var w := h[k..] + h[..k];
    assert h[i] == w[if i >= k then i - k else i + |h| - k];
  }

  /** Overwriting cell k and moving on shifts the window by one. */
  lemma Rotated(h: seq<u64>, k: nat, x: u64)
    requires k < |h| == SLOTS
    ensures var n := (k + 1) % SLOTS; var h' := h[k := x];
            h'[n..] + h'[..n] == (h[k..] + h[..k])[1..] + [x]
  {
    var n, h' := (k + 1) % SLOTS, h[k := x];
    if k + 1 == SLOTS {
      assert n == 0;
      assert h'[0..] + h'[..0] == h[..k] + [x];
    } else {
      assert n == k + 1;
      assert h'[n..] == h[n..] && h'[..n] == h[..k] + [x];
    }
  }

  class Tables {
    const hashes: array<u64>
    var nextIdx: nat
    var directDups: u32
    var floodDups: u32

    ghost predicate Valid()
      reads this, hashes
    {
      hashes.Length == SLOTS && nextIdx < SLOTS && Distinct(Now().window)
    }

    ghost function Now(): (s: State)
      requires hashes.Length == SLOTS && nextIdx < SLOTS
      reads this, hashes
      ensures |s.window| == SLOTS
    {
      State(hashes[nextIdx..] + hashes[..nextIdx], directDups, floodDups)
    }

    /** meshcore_tables_init */
    constructor ()
      ensures Valid() && fresh(hashes) && Now() == Empty()
    {
      hashes := new u64[SLOTS](_ => 0);
      nextIdx, directDups, floodDups := 0, 0, 0;
    }

    method CountDup(direct: bool)
      requires Valid()
      modifies this
      ensures Valid() && Now() == Count(old(Now()), direct)
    {
      if direct {
        directDups := (directDups + 1) % COUNTER;
      } else {
        floodDups := (floodDups + 1) % COUNTER;
      }
    }

    /** meshcore_tables_has_seen */
    method HasSeen(hash: u64, direct: bool) returns (seen: bool)
      requires Valid()
      modifies this, hashes
      ensures Valid() && Now() == Apply(old(Now()), Seen(hash, direct))
      ensures seen == Answer(old(Now()), Seen(hash, direct))
    {
      var found := Scan(hash);
      if found {
        CountDup(direct);
        return true;
      }
      Store(hash);
      seen := false;
    }

    /** The scan over all cells. */
    method Scan(hash: u64) returns (found: bool)
      requires Valid()
      ensures found <==> hash in Now().window
    {
      for i := 0 to SLOTS
        invariant forall k :: 0 <= k < i ==> hashes[k] != hash
      {
        if hashes[i] == hash {
          CellInWindow(hashes[..], nextIdx, i);
          return true;
        }
      }
      found := false;
    }

    /** The oldest cell is overwritten and becomes the newest. */
    method Store(hash: u64)
      requires Valid() && hash !in Now().window
      modifies this`nextIdx, hashes
      ensures Valid() && Now() == Apply(old(Now()), Seen(hash, true))
    {
      ghost var s := Now();
      ApplyGood(s, Seen(hash, true));
      Rotated(hashes[..], nextIdx, hash);
      hashes[nextIdx] := hash;
      nextIdx := (nextIdx + 1) % SLOTS;
      assert Now().window == s.window[1..] + [hash];
    }

    /** meshcore_tables_clear: only the first matching cell is zeroed, and no other can match. */
    method Forget(hash: u64)
      requires Valid()
      modifies hashes
      ensures Valid() && Now() == Apply(old(Now()), Clear(hash))
    {
      ghost var w := Now().window;
      ApplyGood(Now(), Clear(hash));
      for i := 0 to SLOTS
        invariant hashes[..] == old(hashes[..])
        invariant forall k :: 0 <= k < i ==> hashes[k] != hash
      {
        if hashes[i] == hash {
          ghost var at := if i >= nextIdx then i - nextIdx else i + SLOTS - nextIdx;
          assert w[at] == hash;
          hashes[i] := 0;
          assert Now().window == w[at := 0];
          assert Zeroed(w, hash) == w[at := 0];
          return;
        }
      }
      assert hash !in w;
      assert Zeroed(w, hash) == w;
    }
  }

  // ---- every run of calls ----

  function Empty(): State { State(seq(SLOTS, _ => 0), 0, 0) }

  ghost function Run(calls: seq<Call>, m: nat): (s: State)
    requires m <= |calls|
    ensures Good(s)
  {
    if m == 0 then Empty()
    else
      ApplyGood(Run(calls, m - 1), calls[m - 1]);
      Apply(Run(calls, m - 1), calls[m - 1])
  }

  ghost predicate Answered(calls: seq<Call>, i: nat)
    requires i < |calls|
  {
    Answer(Run(calls, i), calls[i])
  }

  /** Call i stored its hash: it asked and was told "not seen". */
  ghost predicate Stored(calls: seq<Call>, i: nat)
    requires i < |calls|
  {
    calls[i].Seen? && !Answered(calls, i)
  }

  /** How many hashes calls i+1 .. m-1 stored. */
  ghost function StoredSince(calls: seq<Call>, i: nat, m: nat): nat
    requires i < m <= |calls|
    decreases m
  {
    if m == i + 1 then 0 else StoredSince(calls, i, m - 1) + (if Stored(calls, m - 1) then 1 else 0)
  }

  ghost predicate ClearedSince(calls: seq<Call>, i: nat, m: nat)
    requires i < m <= |calls|
  {
    exists k :: i < k < m && calls[k] == Clear(calls[i].hash)
  }

  /** h was stored by one of the last 160 storing calls before call m, and not cleared since. */
  ghost predicate Remembered(calls: seq<Call>, h: u64, m: nat)
    requires m <= |calls|
  {
    exists i :: 0 <= i < m && RememberedFrom(calls, h, i, m)
  }

  ghost predicate RememberedFrom(calls: seq<Call>, h: u64, i: nat, m: nat)
    requires i < m <= |calls|
  {
    Stored(calls, i) && calls[i].hash == h && StoredSince(calls, i, m) < 160 && !ClearedSince(calls, i, m)
  }

  /** How one call moves or zeroes the cell of a given age. */
  lemma CellAfter(s: State, c: Call, age: nat)
    requires |s.window| == SLOTS && age < SLOTS
    ensures c.Seen? && !Answer(s, c) && age + 1 < SLOTS ==> Apply(s, c).window[SLOTS - 2 - age] == s.window[SLOTS - 1 - age]
    ensures Answer(s, c) ==> Apply(s, c).window == s.window
    ensures c.Clear? ==> Apply(s, c).window[SLOTS - 1 - age]
                         == if s.window[SLOTS - 1 - age] == c.hash then 0 else s.window[SLOTS - 1 - age]
  {}

  lemma ClearedNext(calls: seq<Call>, i: nat, m: nat)
    requires i + 1 < m <= |calls|
    ensures ClearedSince(calls, i, m) <==> ClearedSince(calls, i, m - 1) || calls[m - 1] == Clear(calls[i].hash)
  {}

  /** A stored hash sits where its age says, or left a zero behind when it was cleared. */
  lemma {:induction false} Position(calls: seq<Call>, i: nat, m: nat)
    requires i < m <= |calls| && Stored(calls, i) && StoredSince(calls, i, m) < SLOTS
    ensures Run(calls, m).window[SLOTS - 1 - StoredSince(calls, i, m)] == if ClearedSince(calls, i, m) then 0 else calls[i].hash
    decreases m
  {
    if m > i + 1 {
      Position(calls, i, m - 1);
      ClearedNext(calls, i, m);
      CellAfter(Run(calls, m - 1), calls[m - 1], StoredSince(calls, i, m - 1));
    }
  }

  /** A nonzero cell was put there by a stored hash of exactly its age. */
  lemma {:induction false} Origin(calls: seq<Call>, k: nat, m: nat) returns (i: nat)
    requires m <= |calls| && k < SLOTS && Run(calls, m).window[k] != 0
    ensures i < m && Stored(calls, i) && StoredSince(calls, i, m) == SLOTS - 1 - k
    decreases m
  {
    assert m > 0;
    if Stored(calls, m - 1) {
      if k == SLOTS - 1 {
        i := m - 1;
      } else {
        i := Origin(calls, k + 1, m - 1);
      }
    } else {
      i := Origin(calls, k, m - 1);
    }
  }

  /** The filter answers "seen" exactly when the hash is among the last 160 stored and not cleared
      since, whatever calls came before. */
  lemma {:induction false} SeenIffRemembered(calls: seq<Call>, h: u64, m: nat)
    requires m <= |calls| && h != 0
    ensures h in Run(calls, m).window <==> Remembered(calls, h, m)
  {
    var w := Run(calls, m).window;
    if h in w {
      var k :| 0 <= k < |w| && w[k] == h;
      var i := Origin(calls, k, m);
      Position(calls, i, m);
      assert RememberedFrom(calls, h, i, m);
    }
    if Remembered(calls, h, m) {
      var i :| 0 <= i < m && RememberedFrom(calls, h, i, m);
      Position(calls, i, m);
    }
  }

  /** That answer is right on every run exactly for nonzero hashes: a fresh filter already "has seen" zero. */
  lemma {:induction false} CorrectIffNonzero(h: u64)
    ensures h != 0 <==> forall calls: seq<Call> :: h in Run(calls, |calls|).window <==> Remembered(calls, h, |calls|)
  {
    if h != 0 {
      forall calls: seq<Call>
        ensures h in Run(calls, |calls|).window <==> Remembered(calls, h, |calls|)
      {
        SeenIffRemembered(calls, h, |calls|);
      }
    } else {
      assert Empty().window[0] == 0;
      var none: seq<Call> := [];
      assert h in Run(none, |none|).window && !Remembered(none, h, |none|);
    }
  }

  /** How many of the first m calls were answered "seen" for a packet of the given routing. */
  ghost function Hits(calls: seq<Call>, direct: bool, m: nat): nat
    requires m <= |calls|
  {
    if m == 0 then 0
    else Hits(calls, direct, m - 1) + (if Answered(calls, m - 1) && calls[m - 1].direct == direct then 1 else 0)
  }

  function Counter(s: State, direct: bool): u32 { if direct then s.direct else s.flood }

  lemma NextModulo(x: nat)
    ensures (x % COUNTER + 1) % COUNTER == (x + 1) % COUNTER
  {}

  lemma {:induction false} ApplyCounter(s: State, c: Call, direct: bool)
    requires |s.window| == SLOTS
    ensures Counter(Apply(s, c), direct)
            == if Answer(s, c) && c.direct == direct then (Counter(s, direct) + 1) % COUNTER else Counter(s, direct)
  {}

  lemma CounterStep(s: State, c: Call, direct: bool, h: nat)
    requires |s.window| == SLOTS && Counter(s, direct) == h % COUNTER
    ensures Counter(Apply(s, c), direct) == (h + if Answer(s, c) && c.direct == direct then 1 else 0) % COUNTER
  {
    ApplyCounter(s, c, direct);
    NextModulo(h);
  }

  /** Each duplicate counter is the number of "seen" answers of its routing, modulo 2^32. */
  lemma {:induction false} CountersMatch(calls: seq<Call>, direct: bool, m: nat)
    requires m <= |calls|
    ensures Counter(Run(calls, m), direct) == Hits(calls, direct, m) % COUNTER
  {
    if m > 0 {
      CountersMatch(calls, direct, m - 1);
      var s, c, h := Run(calls, m - 1), calls[m - 1], Hits(calls, direct, m - 1);
      CounterStep(s, c, direct, h);
      assert Run(calls, m) == Apply(s, c);
      assert Hits(calls, direct, m) == h + if Answer(s, c) && c.direct == direct then 1 else 0;
    }
  }
}
