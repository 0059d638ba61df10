/** The packet queue of meshcore_packet_manager.c: three parallel arrays compacted in place. */
module PacketQueue {
  import opened Words
  import opened Clock32
  import opened Deadline

  datatype Entry = Entry(packet: nat, pri: u8, sched: u32)

  /** The scan of meshcore_packet_queue_get over the first n entries; -1 when none is picked. */
  function Pick(q: seq<Entry>, now: u32, n: nat): (b: int)
    requires n <= |q|
    ensures -1 <= b < n
    decreases n, q
  {
    if n == 0 then -1
    else
      var b := Pick(q, now, n - 1);
      var minPri := if b < 0 then 0xFF else q[b].pri;
      if !Due(q[n - 1].sched, now) || q[n - 1].pri >= minPri then b else n - 1
  }

  predicate DueAt(q: seq<Entry>, now: u32, i: nat)
    requires i < |q|
  {
    Due(q[i].sched, now)
  }

  /** The scan finds the due entry of least priority value, earliest among equals; the
      initial bound 0xFF hides exactly the entries of priority 255. */
  lemma {:induction false} PickIsLeast(q: seq<Entry>, now: u32, n: nat)
    requires n <= |q|
    ensures var b := Pick(q, now, n);
            if b < 0 then forall k :: 0 <= k < n && DueAt(q, now, k) ==> q[k].pri == 0xFF
            else DueAt(q, now, b) && q[b].pri < 0xFF
                 && (forall k :: 0 <= k < n && DueAt(q, now, k) ==> q[b].pri <= q[k].pri)
                 && (forall k :: 0 <= k < b && DueAt(q, now, k) ==> q[b].pri < q[k].pri)
  {
    if n > 0 { PickIsLeast(q, now, n - 1); }
  }

  function Without(q: seq<Entry>, i: nat): seq<Entry>
    requires i < |q|
  {
    q[..i] + q[i + 1..]
  }

  /** How many entries are due. */
  ghost function DueCount(q: seq<Entry>, now: u32): nat
  {
    if q == [] then 0 else DueCount(q[..|q| - 1], now) + (if Due(q[|q| - 1].sched, now) then 1 else 0)
  }

  lemma {:induction false} DueCountZero(q: seq<Entry>, now: u32)
    ensures DueCount(q, now) == 0 <==> forall i :: 0 <= i < |q| ==> !DueAt(q, now, i)
  {
    if q != [] {
      var front, n := q[..|q| - 1], |q| - 1;
      DueCountZero(front, now);
      assert DueAt(q, now, n) == Due(q[n].sched, now);
      assert forall i :: 0 <= i < n ==> DueAt(q, now, i) == DueAt(front, now, i);
    }
  }

  /** The times the entries are scheduled for. */
  ghost function Schedules(q: seq<Entry>): set<u32>
  {
    if q == [] then {} else Schedules(q[..|q| - 1]) + {q[|q| - 1].sched}
  }

  lemma {:induction false} ScheduledIn(q: seq<Entry>, t: u32)
    ensures t in Schedules(q) <==> exists i :: 0 <= i < |q| && q[i].sched == t
  {
    if q != [] {
      var front, n := q[..|q| - 1], |q| - 1;
      ScheduledIn(front, t);
      if t in Schedules(front) {
        var i :| 0 <= i < |front| && front[i].sched == t;
        assert q[i].sched == t;
      } else if i :| 0 <= i < |q| && q[i].sched == t {
        if i < n { assert front[i].sched == t; }
      }
    }
  }

  /** Entry k once entry idx is gone. */
  ghost function Shifted(q: seq<Entry>, idx: nat, k: nat): Entry
    requires k + 1 < |q|
  {
    if k < idx then q[k] else q[k + 1]
  }

  class Queue {
    const table: array<nat>
    const priTable: array<u8>
    const scheduleTable: array<u32>
    const size: nat
    var num: nat

    ghost predicate Valid()
      reads this
    {
      && table.Length == size && priTable.Length == size && scheduleTable.Length == size && num <= size
      && table as object != priTable as object && table as object != scheduleTable as object
      && priTable as object != scheduleTable as object
    }

    ghost function Repr(): set<object>
    {
      {this, table, priTable, scheduleTable}
    }

    ghost function Row(k: nat): Entry
      requires k < table.Length && k < priTable.Length && k < scheduleTable.Length
      reads table, priTable, scheduleTable
    {
      Entry(table[k], priTable[k], scheduleTable[k])
    }

    ghost function Contents(): (q: seq<Entry>)
      requires Valid()
      reads this, table, priTable, scheduleTable
      ensures |q| == num
    {
      seq(num, i requires 0 <= i < num && Valid() reads this, table, priTable, scheduleTable => Row(i))
    }

    /** meshcore_packet_queue_init */
    constructor (maxEntries: nat)
      ensures Valid() && size == maxEntries && num == 0 && Contents() == []
      ensures fresh(table) && fresh(priTable) && fresh(scheduleTable)
    {
      table := new nat[maxEntries];
      priTable := new u8[maxEntries];
      scheduleTable := new u32[maxEntries];
      size := maxEntries;
      num := 0;
    }

    /** compact_from: every entry above idx moves down one place. */
    method CompactFrom(idx: nat)
      requires Valid() && idx < num
      modifies Repr()
      ensures Valid() && Contents() == Without(old(Contents()), idx)
    {
      ghost var q := Contents();
      num := num - 1;
      var i := idx;
      while i < num
        invariant idx <= i <= num == |q| - 1 && Valid()
        invariant forall k :: 0 <= k < i ==> Row(k) == Shifted(q, idx, k)
        invariant forall k :: i < k <= num ==> Row(k) == q[k]
      {
        MoveRow(i);
        i := i + 1;
      }
      assert Contents() == Without(q, idx);
    }

    /** The body of the compaction loop: one row of the three tables. */
    method MoveRow(i: nat)
      requires Valid() && i + 1 < size
      modifies table, priTable, scheduleTable
      ensures Row(i) == old(Row(i + 1))
      ensures forall k :: 0 <= k < size && k != i ==> Row(k) == old(Row(k))
    {
      table[i] := table[i + 1];
      priTable[i] := priTable[i + 1];
      scheduleTable[i] := scheduleTable[i + 1];
    }

    /** meshcore_packet_queue_get */
    method Get(now: u32) returns (top: Option<nat>)
      requires Valid()
      modifies Repr()
      ensures Valid()
      ensures var q := old(Contents());
              var b := Pick(q, now, |q|);
              if b < 0 then top == None && Contents() == q
              else top == Some(q[b].packet) && Contents() == Without(q, b)
    {
      ghost var q := Contents();
      var minPri: u8 := 0xFF;
      var best: int := -1;
      for j := 0 to num
        invariant best == Pick(q, now, j) && minPri == if best < 0 then 0xFF else q[best].pri
      {
        if Signed(Ahead(scheduleTable[j], now)) > 0 {
          continue;
        }
        if priTable[j] < minPri {
          minPri := priTable[j];
          best := j;
        }
      }
      if best < 0 {
        return None;
      }
      top := Some(table[best]);
      CompactFrom(best);
    }

    /** meshcore_packet_queue_add */
    method Add(packet: nat, priority: u8, scheduledFor: u32) returns (ok: bool)
      requires Valid()
      modifies Repr()
      ensures Valid() && ok == (old(num) < size)
      ensures Contents() == if ok then old(Contents()) + [Entry(packet, priority, scheduledFor)] else old(Contents())
    {
      if num >= size {
        return false;
      }
      table[num] := packet;
      priTable[num] := priority;
      scheduleTable[num] := scheduledFor;
      num := num + 1;
      ok := true;
    }

    /** meshcore_packet_queue_remove_by_idx, always called with index 0 or a host's choice */
    method RemoveByIdx(i: int) returns (item: Option<nat>)
      requires Valid()
      modifies Repr()
      ensures Valid()
      ensures if 0 <= i < old(num) then item == Some(old(Contents())[i].packet) && Contents() == Without(old(Contents()), i)
              else item == None && Contents() == old(Contents())
    {
      if i < 0 || i >= num {
        return None;
      }
      item := Some(table[i]);
      CompactFrom(i);
    }

    /** meshcore_packet_queue_count_before; the largest time value means "everything". */
    method CountBefore(now: u32) returns (n: nat)
      requires Valid()
      ensures n == if now == 0xFFFF_FFFF then num else DueCount(Contents(), now)
    {
      if now == 0xFFFF_FFFF {
        return num;
      }
      n := 0;
      ghost var q := Contents();
      for j := 0 to num
        invariant n == DueCount(q[..j], now)
      {
        assert q[..j + 1][..j] == q[..j];
        if Signed(Ahead(scheduleTable[j], now)) > 0 {
          continue;
        }
        n := n + 1;
      }
      assert q[..num] == q;
    }

    /** meshcore_packet_queue_next_scheduled_get */
    method NextScheduledGet(now: u32) returns (r: Option<u32>)
      requires Valid()
      ensures IsDeadline(now, Schedules(Contents()), r)
    {
      ghost var q := Contents();
      var best: Option<u32> := None;
      for j := 0 to num
        invariant IsWait(now, Schedules(q[..j]), best)
      {
        var candidate := scheduleTable[j];
        assert candidate == q[j].sched;
        assert q[..j + 1][..j] == q[..j];
        if Signed(Ahead(candidate, now)) <= 0 {
          ScheduledIn(q, candidate);
          return Some(now);
        }
        best := Sooner(now, Schedules(q[..j]), best, candidate);
      }
      assert q[..num] == q;
      r := best;
    }
  }

  // ---- repeated gets at one moment sort the due entries stably ----

  predicate Usable(q: seq<Entry>) { forall i :: 0 <= i < |q| ==> q[i].pri < 0xFF }

  /** What successive gets at the same time return. */
  ghost function Drain(q: seq<Entry>, now: u32): seq<Entry>
    decreases |q|
  {
    var b := Pick(q, now, |q|);
    if b < 0 then [] else [q[b]] + Drain(Without(q, b), now)
  }

  /** The due entries of one priority, in queue order. */
  ghost function Level(q: seq<Entry>, now: u32, p: int): seq<Entry>
  {
    if q == [] then []
    else if Due(q[0].sched, now) && q[0].pri == p then [q[0]] + Level(q[1..], now, p)
    else Level(q[1..], now, p)
  }

  lemma {:induction false} LevelConcat(a: seq<Entry>, b: seq<Entry>, now: u32, p: int)
    ensures Level(a + b, now, p) == Level(a, now, p) + Level(b, now, p)
  {
    if a == [] {
      assert a + b == b;
    } else {
      assert (a + b)[0] == a[0] && (a + b)[1..] == a[1..] + b;
      LevelConcat(a[1..], b, now, p);
    }
  }

  lemma {:induction false} LevelEmpty(q: seq<Entry>, now: u32, p: int)
    requires forall k :: 0 <= k < |q| && DueAt(q, now, k) ==> q[k].pri != p
    ensures Level(q, now, p) == []
  {
    if q != [] {
      assert DueAt(q, now, 0) == Due(q[0].sched, now);
      forall k | 0 <= k < |q[1..]| && DueAt(q[1..], now, k)
        ensures q[1..][k].pri != p
      {
        assert DueAt(q, now, k + 1);
      }
      LevelEmpty(q[1..], now, p);
    }
  }

  lemma {:induction false} LevelSplit(pre: seq<Entry>, e: Entry, post: seq<Entry>, now: u32, p: int)
    ensures Level(pre + [e] + post, now, p) == Level(pre, now, p) + Level([e], now, p) + Level(post, now, p)
    ensures Level(pre + post, now, p) == Level(pre, now, p) + Level(post, now, p)
  {
    LevelConcat(pre + [e], post, now, p);
    LevelConcat(pre, [e], now, p);
    LevelConcat(pre, post, now, p);
  }

  lemma {:induction false} LevelOne(e: Entry, now: u32, p: int)
    requires Due(e.sched, now)
    ensures Level([e], now, p) == if e.pri == p then [e] else []
  {
    assert [e][1..] == [];
  }

  /** Picking an entry takes the front of its own level and leaves the other levels alone. */
  lemma {:induction false} LevelPick(q: seq<Entry>, now: u32, p: int)
    requires var b := Pick(q, now, |q|); b >= 0
    ensures var b := Pick(q, now, |q|);
            Level(q, now, p) == (if q[b].pri == p then [q[b]] else []) + Level(Without(q, b), now, p)
  {
    var b := Pick(q, now, |q|);
    PickIsLeast(q, now, |q|);
    var pre, post := q[..b], q[b + 1..];
    assert q == pre + [q[b]] + post;
    LevelSplit(pre, q[b], post, now, p);
    assert Due(q[b].sched, now) by { assert DueAt(q, now, b); }
    LevelOne(q[b], now, p);
    if q[b].pri == p {
      forall k | 0 <= k < |pre| && DueAt(pre, now, k)
        ensures pre[k].pri != p
      {
        assert DueAt(q, now, k);
      }
      LevelEmpty(pre, now, p);
    }
  }

  /** Every level comes out in queue order: nothing due is lost, added or reordered within its priority. */
  lemma {:induction false} DrainStable(q: seq<Entry>, now: u32, p: int)
    requires Usable(q) && p < 0xFF
    ensures Level(Drain(q, now), now, p) == Level(q, now, p)
    decreases |q|
  {
    var b := Pick(q, now, |q|);
    PickIsLeast(q, now, |q|);
    if b < 0 {
      LevelEmpty(q, now, p);
    } else {
      var rest := Without(q, b);
      DrainStable(rest, now, p);
      LevelPick(q, now, p);
      LevelConcat([q[b]], Drain(rest, now), now, p);
      assert DueAt(q, now, b);
      assert [q[b]][1..] == [];
    }
  }

  ghost predicate DueEntry(q: seq<Entry>, now: u32, e: Entry)
  {
    exists k :: 0 <= k < |q| && DueAt(q, now, k) && e == q[k]
  }

  /** Priorities never decrease along the drained sequence. */
  lemma {:induction false} DrainSorted(q: seq<Entry>, now: u32)
    requires Usable(q)
    ensures forall i, j :: 0 <= i < j < |Drain(q, now)| ==> Drain(q, now)[i].pri <= Drain(q, now)[j].pri
    ensures forall i :: 0 <= i < |Drain(q, now)| ==> DueEntry(q, now, Drain(q, now)[i])
    decreases |q|
  {
    var b := Pick(q, now, |q|);
    PickIsLeast(q, now, |q|);
    if b >= 0 {
      var rest := Without(q, b);
      DrainSorted(rest, now);
      var d := Drain(rest, now);
      forall i | 0 <= i < |d|
        ensures DueEntry(q, now, d[i])
        ensures q[b].pri <= d[i].pri
      {
        assert DueEntry(rest, now, d[i]);
        var k :| 0 <= k < |rest| && DueAt(rest, now, k) && d[i] == rest[k];
        var k' := if k < b then k else k + 1;
        assert rest[k] == q[k'] && DueAt(q, now, k');
      }
      assert DueEntry(q, now, q[b]) by { assert DueAt(q, now, b); }
    }
  }
}
