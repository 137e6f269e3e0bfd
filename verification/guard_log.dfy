/**
  Guard sleep ledger: a log of timestamped events (a guard begins a shift,
  falls asleep, wakes up) is replayed into one record per guard listing the
  spans during which that guard slept. Queries then ask how long a guard
  slept and which minute the guard was most often asleep in.

  Timestamps are whole minutes since an arbitrary epoch, so a duration is a
  difference of timestamps and the minute of the hour is `t % 60`.
 */
module GuardLog {
  import opened Wrappers

  /** Guard ids are 16-bit unsigned integers. */
  type GuardId = x: int | 0 <= x < 0x1_0000

  /** A sleep from `start` (asleep) to `stop` (awake), both timestamps in minutes. */
  datatype Span = Span(start: int, stop: int)

  datatype Guard = Guard(id: GuardId, spans: seq<Span>)

  datatype EventType = Begins(guard: GuardId) | FallsAsleep | WakesUp

  datatype Event = Event(time: int, kind: EventType)

  const U32: nat := 0x1_0000_0000
  const U64: nat := 0x1_0000_0000_0000_0000

  /** The minute of the hour of a timestamp. */
  function MinuteOf(t: int): nat
  {
    t % 60
  }

  /** A span's length in minutes, reinterpreted as a 64-bit unsigned number (`as u64`). */
  function Minutes64(s: Span): (r: nat)
    ensures r < U64
    ensures 0 <= s.stop - s.start < U64 ==> r == s.stop - s.start
    ensures 0 < s.start - s.stop <= U64 ==> r == s.stop - s.start + U64
  {
    (s.stop - s.start) % U64
  }

  /** A span's length in minutes, truncated to 32 bits (`as u32`). */
  function Minutes32(s: Span): (r: nat)
    ensures r < U32
    ensures 0 <= s.stop - s.start < U32 ==> r == s.stop - s.start
    ensures 0 < s.start - s.stop <= U32 ==> r == s.stop - s.start + U32
  {
    (s.stop - s.start) % U32
  }

  /** The sum of the spans' 64-bit lengths, accumulated left to right. */
  function SumMinutes(spans: seq<Span>): nat
  {
    if |spans| == 0 then 0 else SumMinutes(spans[..|spans| - 1]) + Minutes64(spans[|spans| - 1])
  }

  function TotalMinutesAsleep(g: Guard): nat
  {
    SumMinutes(g.spans)
  }

  lemma {:induction false} SumMinutesAppend(a: seq<Span>, b: seq<Span>)
    ensures SumMinutes(a + b) == SumMinutes(a) + SumMinutes(b)
    decreases |b|
  {
    if |b| == 0 {
      assert a + b == a;
    } else {
      var b' := b[..|b| - 1];
      assert (a + b)[..|a + b| - 1] == a + b';
      SumMinutesAppend(a, b');
    }
  }

  /** The total does not depend on the order in which the spans were recorded. */
  lemma {:induction false} SumMinutesPermutation(a: seq<Span>, b: seq<Span>)
    requires multiset(a) == multiset(b)
    ensures SumMinutes(a) == SumMinutes(b)
    decreases |a|
  {
    if |a| > 0 {
      var n := |a| - 1;
      var x := a[n];
      assert a == a[..n] + [x];
      assert x in multiset(b);
      var i :| 0 <= i < |b| && b[i] == x;
      var rest := b[..i] + b[i + 1..];
      assert multiset(a[..n]) == multiset(rest) by {
        MultisetWithout(b, i);
        assert multiset(a) == multiset(a[..n]) + multiset{x};
      }
      SumMinutesPermutation(a[..n], rest);
      SumMinutesWithout(b, i);
    }
  }

  /** Taking out the span at position `i` takes one copy of it out of the multiset. */
  lemma MultisetWithout(b: seq<Span>, i: nat)
    requires i < |b|
    ensures multiset(b[..i] + b[i + 1..]) == multiset(b) - multiset{b[i]}
  {
    assert b == b[..i] + [b[i]] + b[i + 1..];
    assert multiset(b) == multiset(b[..i]) + multiset{b[i]} + multiset(b[i + 1..]);
  }

  /** Taking out the span at position `i` takes its length out of the total. */
  lemma {:induction false} SumMinutesWithout(b: seq<Span>, i: nat)
    requires i < |b|
    ensures SumMinutes(b) == SumMinutes(b[..i] + b[i + 1..]) + Minutes64(b[i])
    decreases |b|
  {
    var n := |b| - 1;
    if i == n {
      assert b[..i] + b[i + 1..] == b[..n];
    } else {
      var front := b[..n];
      SumMinutesWithout(front, i);
      var rest := b[..i] + b[i + 1..];
      assert rest[..|rest| - 1] == front[..i] + front[i + 1..];
      assert rest[|rest| - 1] == b[n];
    }
  }

  /** When every span ends at or after it starts (and within 2^64 minutes), the total is the plain sum of `stop - start`. */
  lemma {:induction false} TotalOfOrderedSpans(spans: seq<Span>)
    requires forall k :: 0 <= k < |spans| ==> spans[k].start <= spans[k].stop < spans[k].start + U64
    ensures SumMinutes(spans) == SumLengths(spans)
  {
    if |spans| > 0 {
      TotalOfOrderedSpans(spans[..|spans| - 1]);
    }
  }

  /** The plain sum of the span lengths. */
  function SumLengths(spans: seq<Span>): int
  {
    if |spans| == 0 then 0 else SumLengths(spans[..|spans| - 1]) + (spans[|spans| - 1].stop - spans[|spans| - 1].start)
  }

  /** Records one more sleep after the earlier ones. */
  function AddSleep(g: Guard, s: Span): (g': Guard)
    ensures g'.id == g.id && |g'.spans| == |g.spans| + 1
    ensures g'.spans[..|g.spans|] == g.spans && g'.spans[|g.spans|] == s
    ensures TotalMinutesAsleep(g') == TotalMinutesAsleep(g) + Minutes64(s)
  {
    var g' := Guard(g.id, g.spans + [s]);
    assert g'.spans[..|g'.spans| - 1] == g.spans;
    g'
  }

  /** Records the spans of another shift, one by one and in order, after the earlier ones. */
  function AddSleepRecord(g: Guard, durations: seq<Span>): (g': Guard)
    ensures g'.id == g.id && g'.spans == g.spans + durations
    ensures TotalMinutesAsleep(g') == TotalMinutesAsleep(g) + SumMinutes(durations)
    decreases |durations|
  {
    if |durations| == 0 then g
    else
      var g' := AddSleepRecord(AddSleep(g, durations[0]), durations[1..]);
      assert [durations[0]] + durations[1..] == durations;
      assert g.spans + [durations[0]] + durations[1..] == g.spans + durations;
      SumMinutesAppend([durations[0]], durations[1..]);
      assert [durations[0]][..0] == [];
      g'
  }

  /** The span counts as asleep at minute `m`: the minutes `start % 60 .. start % 60 + len` (no wrap at the hour). */
  predicate Covers(s: Span, m: nat)
  {
    MinuteOf(s.start) <= m < MinuteOf(s.start) + Minutes32(s)
  }

  /** The number of spans asleep at minute `m`. */
  function Coverage(spans: seq<Span>, m: nat): nat
  {
    if |spans| == 0 then 0
    else Coverage(spans[..|spans| - 1], m) + (if Covers(spans[|spans| - 1], m) then 1 else 0)
  }

  /** Some span covers at least one minute. */
  predicate HasSleep(spans: seq<Span>)
  {
    exists k :: 0 <= k < |spans| && Minutes32(spans[k]) > 0
  }

  lemma {:induction false} CoveredMinute(spans: seq<Span>, k: nat)
    requires k < |spans| && Minutes32(spans[k]) > 0
    ensures Coverage(spans, MinuteOf(spans[k].start)) > 0
  {
    var n := |spans| - 1;
    if k < n {
      CoveredMinute(spans[..n], k);
    }
  }

  /** The per-minute counter both minute queries build: one entry per covered minute, holding its coverage. */
  method MinuteCounts(spans: seq<Span>) returns (freq: map<nat, nat>)
    ensures forall m :: m in freq <==> Coverage(spans, m) > 0
    ensures forall m :: m in freq ==> freq[m] == Coverage(spans, m)
  {
    freq := map[];
    var i := 0;
    while i < |spans|
      invariant 0 <= i <= |spans|
      invariant forall m :: m in freq <==> Coverage(spans[..i], m) > 0
      invariant forall m :: m in freq ==> freq[m] == Coverage(spans[..i], m)
    {
      var s := spans[i];
      var first := MinuteOf(s.start);
      var minute := first;
      while minute < first + Minutes32(s)
        invariant first <= minute <= first + Minutes32(s)
        invariant forall m: nat :: m in freq <==> Coverage(spans[..i], m) > 0 || first <= m < minute
        invariant forall m: nat :: m in freq ==> freq[m] == Coverage(spans[..i], m) + (if first <= m < minute then 1 else 0)
      {
        var entry := if minute in freq then freq[minute] else 0;
        freq := freq[minute := entry + 1];
        minute := minute + 1;
      }
      assert spans[..i + 1][..i] == spans[..i];
      i := i + 1;
    }
    assert spans[..i] == spans;
  }

  /** `max_by_key` over the counter: some minute with the greatest count. */
  method MaxByCount(freq: map<nat, nat>) returns (best: nat, count: nat)
    requires |freq| > 0
    ensures best in freq && count == freq[best]
    ensures forall m :: m in freq ==> freq[m] <= count
  {
    var remaining := freq.Keys;
    assert |remaining| > 0;
    best :| best in remaining;
    count := freq[best];
    remaining := remaining - {best};
    while remaining != {}
      invariant remaining <= freq.Keys
      invariant best in freq && count == freq[best]
      invariant forall m :: m in freq && m !in remaining ==> freq[m] <= count
      decreases remaining
    {
      var m :| m in remaining;
      if freq[m] >= count {
        best, count := m, freq[m];
      }
      remaining := remaining - {m};
    }
  }

  /**
    A minute of the hour the guard was asleep in most often. The source
    unwraps the maximum of the counter, so some span must cover a minute.
   */
  method SleepiestMinute(g: Guard) returns (minute: nat)
    requires HasSleep(g.spans)
    ensures Coverage(g.spans, minute) > 0
    ensures forall m :: Coverage(g.spans, m) <= Coverage(g.spans, minute)
  {
    var freq := MinuteCounts(g.spans);
    var k :| 0 <= k < |g.spans| && Minutes32(g.spans[k]) > 0;
    CoveredMinute(g.spans, k);
    assert MinuteOf(g.spans[k].start) in freq;
    var count;
    minute, count := MaxByCount(freq);
    forall m | Coverage(g.spans, m) > 0
      ensures Coverage(g.spans, m) <= Coverage(g.spans, minute)
    {
      assert m in freq;
    }
  }

  /**
    `None` for a guard who never slept; otherwise a most frequent minute with
    its count. A guard whose spans all have zero length makes the source
    unwrap an empty maximum, so that case is excluded.
   */
  method MostFrequentMinuteAsleep(g: Guard) returns (r: Option<(nat, nat)>)
    requires |g.spans| == 0 || HasSleep(g.spans)
    ensures r.None? <==> |g.spans| == 0
    ensures r.Some? ==> r.value.1 == Coverage(g.spans, r.value.0) && r.value.1 > 0
    ensures r.Some? ==> forall m :: Coverage(g.spans, m) <= r.value.1
  {
    if |g.spans| == 0 {
      return None;
    }
    var freq := MinuteCounts(g.spans);
    var k :| 0 <= k < |g.spans| && Minutes32(g.spans[k]) > 0;
    CoveredMinute(g.spans, k);
    assert MinuteOf(g.spans[k].start) in freq;
    var minute, count := MaxByCount(freq);
    forall m | Coverage(g.spans, m) > 0
      ensures Coverage(g.spans, m) <= count
    {
      assert m in freq;
    }
    r := Some((minute, count));
  }

  /** The ledger entry for `g.id` after merging in the spans of one more shift of that guard. */
  function Flush(table: map<GuardId, Guard>, g: Guard): (t: map<GuardId, Guard>)
    ensures t.Keys == table.Keys + {g.id}
    ensures t[g.id].id == (if g.id in table then table[g.id].id else g.id)
    ensures t[g.id].spans == (if g.id in table then table[g.id].spans else []) + g.spans
    ensures forall id :: id in table && id != g.id ==> t[id] == table[id]
  {
    if g.id in table then table[g.id := AddSleepRecord(table[g.id], g.spans)] else table[g.id := g]
  }

  /** The three variables of the replay: the ledger, the guard on shift (with this shift's spans), and the last sleep start. */
  datatype Replay = Replay(table: map<GuardId, Guard>, current: Option<Guard>, sleep: Option<int>)

  /** The id of the guard whose shift began last among the first `n` events. */
  function LastBegin(events: seq<Event>, n: nat): Option<GuardId>
    requires n <= |events|
  {
    if n == 0 then None
    else if events[n - 1].kind.Begins? then Some(events[n - 1].kind.guard)
    else LastBegin(events, n - 1)
  }

  /** The time of the last `FallsAsleep` among the first `n` events; it is never cleared. */
  function LastSleep(events: seq<Event>, n: nat): Option<int>
    requires n <= |events|
  {
    if n == 0 then None
    else if events[n - 1].kind.FallsAsleep? then Some(events[n - 1].time)
    else LastSleep(events, n - 1)
  }

  /** Every `WakesUp` during a shift follows some `FallsAsleep`, or the source unwraps an empty sleep start. */
  predicate WakesAfterSleep(events: seq<Event>)
  {
    forall k :: 0 <= k < |events| && events[k].kind.WakesUp? && LastBegin(events, k).Some? ==> LastSleep(events, k).Some?
  }

  /** One transition of the replay. */
  function Step(st: Replay, e: Event): Replay
    requires e.kind.WakesUp? && st.current.Some? ==> st.sleep.Some?
  {
    match e.kind
    case Begins(id) =>
      var table := if st.current.Some? then Flush(st.table, st.current.value) else st.table;
      Replay(table, Some(Guard(id, [])), st.sleep)
    case FallsAsleep =>
      st.(sleep := Some(e.time))
    case WakesUp =>
      if st.current.Some? then st.(current := Some(AddSleep(st.current.value, Span(st.sleep.value, e.time))))
      else st
  }

  /** The state after replaying the first `n` events. */
  function ReplayPrefix(events: seq<Event>, n: nat): (st: Replay)
    requires n <= |events| && WakesAfterSleep(events)
    ensures st.current.Some? <==> LastBegin(events, n).Some?
    ensures st.current.Some? ==> st.current.value.id == LastBegin(events, n).value
    ensures st.sleep == LastSleep(events, n)
  {
    if n == 0 then Replay(map[], None, None)
    else Step(ReplayPrefix(events, n - 1), events[n - 1])
  }

  /** The ledger with the guard on shift merged in, as done on each new shift and at the end. */
  function Settle(st: Replay): map<GuardId, Guard>
  {
    if st.current.Some? then Flush(st.table, st.current.value) else st.table
  }

  /** Replays a log sorted by time into the per-guard ledger. */
  function BuildSleepTable(events: seq<Event>): map<GuardId, Guard>
    requires WakesAfterSleep(events)
  {
    Settle(ReplayPrefix(events, |events|))
  }

  /** The ids of the guards whose shift begins among the first `n` events. */
  ghost function BeginIds(events: seq<Event>, n: nat): set<GuardId>
    requires n <= |events|
  {
    set k | 0 <= k < n && events[k].kind.Begins? :: events[k].kind.guard
  }

  /**
    The sleeps of guard `id` among the first `n` events: one span per
    `WakesUp` that falls in a shift of `id`, from the last `FallsAsleep`
    before it to the wake-up time.
   */
  function SleepLog(events: seq<Event>, id: GuardId, n: nat): seq<Span>
    requires n <= |events| && WakesAfterSleep(events)
  {
    if n == 0 then []
    else
      var k := n - 1;
      SleepLog(events, id, k)
        + (if events[k].kind.WakesUp? && LastBegin(events, k) == Some(id)
           then [Span(LastSleep(events, k).value, events[k].time)] else [])
  }

  lemma {:induction false} BeginIdsStep(events: seq<Event>, k: nat)
    requires k < |events|
    ensures BeginIds(events, k + 1)
            == BeginIds(events, k) + (if events[k].kind.Begins? then {events[k].kind.guard} else {})
  {
  }

  /** A guard with no shift among the first `n` events has not slept in them. */
  lemma {:induction false} NoShiftNoSleep(events: seq<Event>, id: GuardId, n: nat)
    requires n <= |events| && WakesAfterSleep(events)
    requires id !in BeginIds(events, n)
    ensures SleepLog(events, id, n) == []
  {
    if n > 0 {
      var k := n - 1;
      assert BeginIds(events, k) <= BeginIds(events, n);
      NoShiftNoSleep(events, id, k);
      if LastBegin(events, k) == Some(id) {
        LastBeginSeen(events, k);
      }
    }
  }

  lemma {:induction false} LastBeginSeen(events: seq<Event>, n: nat)
    requires n <= |events|
    ensures LastBegin(events, n).Some? ==> LastBegin(events, n).value in BeginIds(events, n)
  {
    if n > 0 {
      LastBeginSeen(events, n - 1);
      assert BeginIds(events, n - 1) <= BeginIds(events, n);
      if events[n - 1].kind.Begins? {
        assert events[n - 1].kind.guard in BeginIds(events, n);
      }
    }
  }

  /** The ledger agrees with the log: one entry per guard seen, under its own id, holding exactly that guard's sleeps. */
  ghost predicate Reflects(t: map<GuardId, Guard>, events: seq<Event>, n: nat)
    requires n <= |events| && WakesAfterSleep(events)
  {
    && t.Keys == BeginIds(events, n)
    && forall id :: id in t ==> t[id].id == id && t[id].spans == SleepLog(events, id, n)
  }

  lemma {:induction false} ReplayReflects(events: seq<Event>, n: nat)
    requires n <= |events| && WakesAfterSleep(events)
    ensures Reflects(Settle(ReplayPrefix(events, n)), events, n)
  {
    if n == 0 {
      assert BeginIds(events, 0) == {};
    } else {
      var k := n - 1;
      ReplayReflects(events, k);
      match events[k].kind
      case Begins(_) => BeginsReflects(events, k);
      case FallsAsleep => FallsAsleepReflects(events, k);
      case WakesUp => WakesUpReflects(events, k);
    }
  }

  lemma {:induction false} BeginsReflects(events: seq<Event>, k: nat)
    requires k < |events| && WakesAfterSleep(events) && events[k].kind.Begins?
    requires Reflects(Settle(ReplayPrefix(events, k)), events, k)
    ensures Reflects(Settle(ReplayPrefix(events, k + 1)), events, k + 1)
  {
    var n, id := k + 1, events[k].kind.guard;
    var st := ReplayPrefix(events, k);
    var before := Settle(st);
    var after := Settle(ReplayPrefix(events, n));
    assert ReplayPrefix(events, n) == Step(st, events[k]);
    assert BeginIds(events, n) == BeginIds(events, k) + {id};
    assert after == Flush(before, Guard(id, []));
    forall x | x in after
      ensures after[x].id == x && after[x].spans == SleepLog(events, x, n)
    {
      assert SleepLog(events, x, n) == SleepLog(events, x, k);
      if x == id && id in before {
        assert after[x].spans == before[x].spans + [];
      } else if x == id {
        NoShiftNoSleep(events, id, k);
      }
    }
  }

  lemma {:induction false} FallsAsleepReflects(events: seq<Event>, k: nat)
    requires k < |events| && WakesAfterSleep(events) && events[k].kind.FallsAsleep?
    requires Reflects(Settle(ReplayPrefix(events, k)), events, k)
    ensures Reflects(Settle(ReplayPrefix(events, k + 1)), events, k + 1)
  {
    var n := k + 1;
    var st := ReplayPrefix(events, k);
    assert Settle(ReplayPrefix(events, n)) == Settle(st) by {
      assert ReplayPrefix(events, n) == Step(st, events[k]);
    }
    BeginIdsStep(events, k);
    forall x | x in Settle(st)
      ensures SleepLog(events, x, n) == SleepLog(events, x, k)
    {
      SleepLogStep(events, k, x);
    }
  }

  lemma {:induction false} WakesUpReflects(events: seq<Event>, k: nat)
    requires k < |events| && WakesAfterSleep(events) && events[k].kind.WakesUp?
    requires Reflects(Settle(ReplayPrefix(events, k)), events, k)
    ensures Reflects(Settle(ReplayPrefix(events, k + 1)), events, k + 1)
  {
    var st := ReplayPrefix(events, k);
    assert ReplayPrefix(events, k + 1) == Step(st, events[k]);
    assert BeginIds(events, k + 1) == BeginIds(events, k);
    if st.current.Some? {
      WakesUpOnShift(events, k);
    } else {
      forall x | x in Settle(st)
        ensures SleepLog(events, x, k + 1) == SleepLog(events, x, k)
      {
      }
    }
  }

  lemma {:induction false} WakesUpOnShift(events: seq<Event>, k: nat)
    requires k < |events| && WakesAfterSleep(events) && events[k].kind.WakesUp?
    requires ReplayPrefix(events, k).current.Some?
    requires Reflects(Settle(ReplayPrefix(events, k)), events, k)
    ensures Reflects(Settle(ReplayPrefix(events, k + 1)), events, k + 1)
  {
    var st := ReplayPrefix(events, k);
    ReplayWake(events, k);
    WakeStepReflects(events, k, st.table, st.current.value);
  }

  /** A wake-up during a shift records the span from the last sleep start on the guard on shift. */
  lemma {:induction false} ReplayWake(events: seq<Event>, k: nat)
    requires k < |events| && WakesAfterSleep(events) && events[k].kind.WakesUp?
    requires ReplayPrefix(events, k).current.Some?
    ensures var st := ReplayPrefix(events, k);
            && Settle(st) == Flush(st.table, st.current.value)
            && Settle(ReplayPrefix(events, k + 1))
               == Flush(st.table, AddSleep(st.current.value, Span(LastSleep(events, k).value, events[k].time)))
  {
    var st := ReplayPrefix(events, k);
    assert ReplayPrefix(events, k + 1) == Step(st, events[k]);
  }

  /** Closing a sleep of the guard on shift keeps the merged ledger in step with the log. */
  lemma {:induction false} WakeStepReflects(events: seq<Event>, k: nat, table: map<GuardId, Guard>, g: Guard)
    requires k < |events| && WakesAfterSleep(events) && events[k].kind.WakesUp?
    requires LastBegin(events, k) == Some(g.id) && LastSleep(events, k).Some?
    requires Reflects(Flush(table, g), events, k)
    ensures Reflects(Flush(table, AddSleep(g, Span(LastSleep(events, k).value, events[k].time))), events, k + 1)
  {
    var span := Span(LastSleep(events, k).value, events[k].time);
    var after := Flush(table, AddSleep(g, span));
    WakeKeys(events, k, table, g);
    forall x | x in after
      ensures after[x].id == x && after[x].spans == SleepLog(events, x, k + 1)
    {
      WakeEntry(events, k, table, g, x);
    }
  }

  /** A wake-up adds no guard to the ledger. */
  lemma {:induction false} WakeKeys(events: seq<Event>, k: nat, table: map<GuardId, Guard>, g: Guard)
    requires k < |events| && WakesAfterSleep(events) && events[k].kind.WakesUp?
    requires LastSleep(events, k).Some?
    requires Flush(table, g).Keys == BeginIds(events, k)
    ensures Flush(table, AddSleep(g, Span(LastSleep(events, k).value, events[k].time))).Keys == BeginIds(events, k + 1)
  {
    BeginIdsStep(events, k);
    FlushAfterWake(table, g, Span(LastSleep(events, k).value, events[k].time));
  }

  /** The entry of guard `x` after a wake-up: the sleeper's gains the closed span, every other is as it was. */
  lemma {:induction false} WakeEntry(events: seq<Event>, k: nat, table: map<GuardId, Guard>, g: Guard, x: GuardId)
    requires k < |events| && WakesAfterSleep(events) && events[k].kind.WakesUp?
    requires LastBegin(events, k) == Some(g.id) && LastSleep(events, k).Some?
    requires Reflects(Flush(table, g), events, k)
    requires x in Flush(table, g)
    ensures var after := Flush(table, AddSleep(g, Span(LastSleep(events, k).value, events[k].time)));
            x in after && after[x].id == x && after[x].spans == SleepLog(events, x, k + 1)
  {
    var span := Span(LastSleep(events, k).value, events[k].time);
    var before, after := Flush(table, g), Flush(table, AddSleep(g, span));
    FlushAfterWake(table, g, span);
    SleepLogStep(events, k, x);
    if x == g.id {
      assert after[x].spans == before[x].spans + [span];
    } else {
      assert after[x] == before[x];
    }
  }

  /** Recording a sleep before merging changes only the sleeper's entry, by that one span. */
  lemma {:induction false} FlushAfterWake(table: map<GuardId, Guard>, g: Guard, span: Span)
    ensures Flush(table, AddSleep(g, span)).Keys == Flush(table, g).Keys
    ensures Flush(table, AddSleep(g, span))[g.id].id == Flush(table, g)[g.id].id
    ensures Flush(table, AddSleep(g, span))[g.id].spans == Flush(table, g)[g.id].spans + [span]
    ensures forall x :: x in table && x != g.id ==> Flush(table, AddSleep(g, span))[x] == Flush(table, g)[x]
  {
    assert AddSleep(g, span).spans == g.spans + [span];
  }

  /** One more event adds at most the span it closes, and only to the log of the guard on shift. */
  lemma {:induction false} SleepLogStep(events: seq<Event>, k: nat, x: GuardId)
    requires k < |events| && WakesAfterSleep(events)
    ensures SleepLog(events, x, k + 1) ==
              SleepLog(events, x, k)
                + (if events[k].kind.WakesUp? && LastBegin(events, k) == Some(x)
                   then [Span(LastSleep(events, k).value, events[k].time)] else [])
  {
  }

  /**
    The ledger holds one entry per guard that began a shift, under that
    guard's own id, and each entry lists, in log order, the spans slept
    during that guard's shifts; wake-ups before the first shift are dropped.
   */
  lemma {:induction false} SleepTableSpec(events: seq<Event>)
    requires WakesAfterSleep(events)
    ensures BuildSleepTable(events).Keys == BeginIds(events, |events|)
    ensures forall id :: id in BuildSleepTable(events) ==> BuildSleepTable(events)[id].id == id
    ensures forall id :: id in BuildSleepTable(events) ==>
              BuildSleepTable(events)[id].spans == SleepLog(events, id, |events|)
  {
    ReplayReflects(events, |events|);
  }

  /** A second wake-up reuses the sleep start, which is never cleared: both spans start at minute 5. */
  lemma RepeatedWakeReusesStart()
    ensures BuildSleepTable([Event(0, Begins(10)), Event(5, FallsAsleep), Event(25, WakesUp), Event(30, WakesUp)])
            == map[10 := Guard(10, [Span(5, 25), Span(5, 30)])]
  {
    var events := [Event(0, Begins(10)), Event(5, FallsAsleep), Event(25, WakesUp), Event(30, WakesUp)];
    assert WakesAfterSleep(events) by {
      assert LastSleep(events, 2) == Some(5) && LastSleep(events, 3) == Some(5);
    }
    assert ReplayPrefix(events, 1) == Replay(map[], Some(Guard(10, [])), None);
    assert ReplayPrefix(events, 2) == Replay(map[], Some(Guard(10, [])), Some(5));
    assert ReplayPrefix(events, 3) == Replay(map[], Some(Guard(10, [Span(5, 25)])), Some(5));
    assert [Span(5, 25)] + [Span(5, 30)] == [Span(5, 25), Span(5, 30)];
    assert ReplayPrefix(events, 4) == Replay(map[], Some(Guard(10, [Span(5, 25), Span(5, 30)])), Some(5));
  }

  /**
    The worked example: guard #10 begins at 00:00, sleeps 00:05-00:25 and
    00:30-00:55. The ledger holds both spans, 45 minutes in all.
   */
  lemma TwoNapsScenario()
    ensures BuildSleepTable(TwoNaps()) == map[10 := Guard(10, [Span(5, 25), Span(30, 55)])]
    ensures TotalMinutesAsleep(BuildSleepTable(TwoNaps())[10]) == 45
  {
    var events := TwoNaps();
    assert WakesAfterSleep(events) by {
      assert LastSleep(events, 2) == Some(5) && LastSleep(events, 4) == Some(30);
    }
    assert ReplayPrefix(events, 1) == Replay(map[], Some(Guard(10, [])), None);
    assert ReplayPrefix(events, 2) == Replay(map[], Some(Guard(10, [])), Some(5));
    assert ReplayPrefix(events, 3) == Replay(map[], Some(Guard(10, [Span(5, 25)])), Some(5));
    assert ReplayPrefix(events, 4) == Replay(map[], Some(Guard(10, [Span(5, 25)])), Some(30));
    assert [Span(5, 25)] + [Span(30, 55)] == [Span(5, 25), Span(30, 55)];
    assert ReplayPrefix(events, 5) == Replay(map[], Some(Guard(10, [Span(5, 25), Span(30, 55)])), Some(30));
    assert [Span(5, 25), Span(30, 55)][..1] == [Span(5, 25)];
  }

  function TwoNaps(): seq<Event>
  {
    [Event(0, Begins(10)), Event(5, FallsAsleep), Event(25, WakesUp), Event(30, FallsAsleep), Event(55, WakesUp)]
  }

  /** A wake-up before any shift has begun is dropped. */
  lemma WakeBeforeShiftDropped()
    ensures BuildSleepTable([Event(0, WakesUp), Event(1, Begins(3))]) == map[3 := Guard(3, [])]
  {
    var events := [Event(0, WakesUp), Event(1, Begins(3))];
    assert WakesAfterSleep(events) by {
      assert LastBegin(events, 0) == None && LastBegin(events, 1) == None;
    }
    assert ReplayPrefix(events, 1) == Replay(map[], None, None);
    assert ReplayPrefix(events, 2) == Replay(map[], Some(Guard(3, [])), None);
  }

  /** Part one's choice of guard: one whose total minutes asleep is greatest. */
  method SleepiestGuard(table: map<GuardId, Guard>) returns (id: GuardId)
    requires |table| > 0
    ensures id in table
    ensures forall x :: x in table ==> TotalMinutesAsleep(table[x]) <= TotalMinutesAsleep(table[id])
  {
    var remaining := table.Keys;
    assert |remaining| > 0;
    id :| id in remaining;
    remaining := remaining - {id};
    while remaining != {}
      invariant remaining <= table.Keys
      invariant id in table
      invariant forall x :: x in table && x !in remaining ==> TotalMinutesAsleep(table[x]) <= TotalMinutesAsleep(table[id])
      decreases remaining
    {
      var x :| x in remaining;
      if TotalMinutesAsleep(table[x]) >= TotalMinutesAsleep(table[id]) {
        id := x;
      }
      remaining := remaining - {x};
    }
  }

  /** Every guard in the ledger either never slept or covered some minute, so its minute query does not unwrap an empty maximum. */
  ghost predicate QueryableLedger(table: map<GuardId, Guard>)
  {
    forall x :: x in table ==> |table[x].spans| == 0 || HasSleep(table[x].spans)
  }

  /**
    Part two's choice: over the guards that slept, one whose most frequent
    minute was slept in most often, with that minute and its count. The
    source unwraps the maximum, so some guard must have slept.
   */
  method MostFrequentMinuteOverall(table: map<GuardId, Guard>) returns (id: GuardId, minute: nat, count: nat)
    requires QueryableLedger(table)
    requires exists x :: x in table && |table[x].spans| > 0
    ensures id in table && |table[id].spans| > 0
    ensures count == Coverage(table[id].spans, minute) && count > 0
    ensures forall m :: Coverage(table[id].spans, m) <= count
    ensures forall x, m :: x in table ==> Coverage(table[x].spans, m) <= count
  {
    var remaining := table.Keys;
    var found := false;
    id, minute, count := 0, 0, 0;
    while remaining != {}
      invariant remaining <= table.Keys
      invariant found ==> id in table && |table[id].spans| > 0
      invariant found ==> count == Coverage(table[id].spans, minute) && count > 0
      invariant found ==> forall m :: Coverage(table[id].spans, m) <= count
      invariant forall x, m :: x in table && x !in remaining ==> Coverage(table[x].spans, m) <= count
      invariant !found ==> forall x :: x in table && x !in remaining ==> |table[x].spans| == 0
      decreases remaining
    {
      var x :| x in remaining;
      var r := MostFrequentMinuteAsleep(table[x]);
      if r.Some? && (!found || r.value.1 >= count) {
        id, minute, count := x, r.value.0, r.value.1;
        found := true;
      }
      remaining := remaining - {x};
    }
  }
}
