/**
  Frequency drift: a list of frequency changes is applied to a device that
  starts at frequency 0. Part 1 asks for the final frequency after one pass;
  part 2 replays the list forever and asks for the first running frequency
  that is reached twice (0, the start, counts as already reached).
 */
module Frequency {
  import opened Wrappers

  /** The frequency after applying `changes` once, accumulated left to right. */
  function Sum(changes: seq<int>): int
  {
    if |changes| == 0 then 0 else Sum(changes[..|changes| - 1]) + changes[|changes| - 1]
  }

  /** Applying two lists one after the other drifts by the sum of both. */
  lemma {:induction false} SumAppend(a: seq<int>, b: seq<int>)
    ensures Sum(a + b) == Sum(a) + Sum(b)
    decreases |b|
  {
    if |b| == 0 {
      assert a + b == a;
    } else {
      var b' := b[..|b| - 1];
      assert (a + b)[..|a + b| - 1] == a + b';
      SumAppend(a, b');
    }
  }

  /** Part 1: the iterator sum over the parsed changes. */
  method SumFrequency(changes: seq<int>) returns (total: int)
    ensures total == Sum(changes)
  {
    total := 0;
    var i := 0;
    while i < |changes|
      invariant 0 <= i <= |changes|
      invariant total == Sum(changes[..i])
    {
      assert changes[..i + 1][..i] == changes[..i];
      total := total + changes[i];
      i := i + 1;
    }
    assert changes[..i] == changes;
  }

  /**
    The running frequency after `k` changes have been taken from the list
    cycled forever; `Drift(changes, 0)` is the starting frequency 0.
   */
  function Drift(changes: seq<int>, k: nat): int
    requires k == 0 || |changes| > 0
  {
    if k == 0 then 0 else Drift(changes, k - 1) + changes[(k - 1) % |changes|]
  }

  /** One full pass over the cycled list moves the running frequency by the part-1 sum. */
  lemma {:induction false} DriftFullCycle(changes: seq<int>, k: nat)
    requires |changes| > 0
    ensures Drift(changes, k + |changes|) == Drift(changes, k) + Sum(changes)
  {
    if k == 0 {
      DriftIsPrefixSum(changes, |changes|);
      assert changes[..|changes|] == changes;
    } else {
      DriftFullCycle(changes, k - 1);
      ModShift(k - 1, |changes|);
    }
  }

  /** Within the first pass the running frequency is the sum of the prefix taken so far. */
  lemma {:induction false} DriftIsPrefixSum(changes: seq<int>, k: nat)
    requires k <= |changes|
    ensures Drift(changes, k) == Sum(changes[..k])
  {
    if k > 0 {
      DriftIsPrefixSum(changes, k - 1);
      SmallMod(k - 1, |changes|);
      assert Drift(changes, k) == Drift(changes, k - 1) + changes[k - 1];
      assert changes[..k][..k - 1] == changes[..k - 1];
    }
  }

  /** Within the first pass a position is its own remainder. */
  lemma SmallMod(a: nat, n: nat)
    requires a < n
    ensures a % n == a
  {
  }

  /** Moving a full cycle ahead lands on the same position of the list. */
  lemma ModShift(a: nat, n: nat)
    requires n > 0
    ensures (a + n) % n == a % n
  {
    var q, r := a / n, a % n;
    assert a == q * n + r;
    assert a + n == (q + 1) * n + r;
    var q', r' := (a + n) / n, (a + n) % n;
    assert a + n == q' * n + r';
    var d := q + 1 - q';
    assert d * n == r' - r;
  }

  /** The running frequencies reached after 0, 1, ..., `k` changes. */
  ghost function Reached(changes: seq<int>, k: nat): set<int>
    requires |changes| > 0
  {
    set j | 0 <= j <= k :: Drift(changes, j)
  }

  /** The running frequencies after 0, ..., `n - 1` changes are pairwise different. */
  ghost predicate DistinctUpTo(changes: seq<int>, n: nat)
    requires |changes| > 0
  {
    forall a, b :: 0 <= a < b < n ==> Drift(changes, a) != Drift(changes, b)
  }

  /**
    Step `k` is the first repeat: the frequency after `k` changes was reached
    before, and no earlier frequency was.
   */
  ghost predicate IsFirstRepeat(changes: seq<int>, k: nat)
  {
    && |changes| > 0
    && k >= 1
    && DistinctUpTo(changes, k)
    && exists j :: 0 <= j < k && Drift(changes, j) == Drift(changes, k)
  }

  /** There is at most one first repeat. */
  lemma FirstRepeatUnique(changes: seq<int>, s: nat, t: nat)
    requires IsFirstRepeat(changes, s) && IsFirstRepeat(changes, t)
    ensures s == t
  {
  }

  /**
    Part 2, iterator version: `scan` carries the running frequency `acc`
    over the cycled list (position `k`), and `find` stops at the first value
    that the set `seen` already holds, inserting every other one. `fuel`
    bounds the number of scanned elements.
   */
  function ScanFrom(changes: seq<int>, acc: int, k: nat, seen: set<int>, fuel: nat): Option<int>
    requires |changes| > 0
    decreases fuel
  {
    if fuel == 0 then None
    else
      var next := acc + changes[k % |changes|];
      if next in seen then Some(next) else ScanFrom(changes, next, k + 1, seen + {next}, fuel - 1)
  }

  /** The iterator version as a whole: an empty list cycles to an empty stream and finds nothing. */
  function ScanFind(changes: seq<int>, fuel: nat): Option<int>
  {
    if |changes| == 0 then None else ScanFrom(changes, 0, 0, {0}, fuel)
  }

  /** A running frequency not reached before extends the distinct prefix and the reached set by one step. */
  lemma FreshStep(changes: seq<int>, k: nat, seen: set<int>)
    requires |changes| > 0 && seen == Reached(changes, k) && DistinctUpTo(changes, k + 1)
    requires Drift(changes, k + 1) !in seen
    ensures DistinctUpTo(changes, k + 2)
    ensures seen + {Drift(changes, k + 1)} == Reached(changes, k + 1)
  {
    forall a, b | 0 <= a < b < k + 2
      ensures Drift(changes, a) != Drift(changes, b)
    {
      if b == k + 1 {
        assert Drift(changes, a) in seen;
      }
    }
  }

  /**
    One step of either version: the next running frequency either repeats,
    which makes this step the first repeat, or is new and extends the state.
   */
  lemma ScanStep(changes: seq<int>, k: nat, seen: set<int>, fuel: nat)
    requires |changes| > 0 && seen == Reached(changes, k) && DistinctUpTo(changes, k + 1) && fuel > 0
    ensures var next := Drift(changes, k + 1);
            && next == Drift(changes, k) + changes[k % |changes|]
            && ScanFrom(changes, Drift(changes, k), k, seen, fuel)
               == (if next in seen then Some(next) else ScanFrom(changes, next, k + 1, seen + {next}, fuel - 1))
            && (next in seen ==> IsFirstRepeat(changes, k + 1))
            && (next !in seen ==> DistinctUpTo(changes, k + 2) && seen + {next} == Reached(changes, k + 1))
  {
    var next := Drift(changes, k + 1);
    if next in seen {
      var j :| 0 <= j <= k && Drift(changes, j) == next;
    } else {
      FreshStep(changes, k, seen);
    }
  }

  /** From a state that agrees with the running sums, the iterator finds exactly the first repeat. */
  lemma {:induction false} ScanFromFindsFirstRepeat(changes: seq<int>, k: nat, seen: set<int>, fuel: nat)
    requires |changes| > 0
    requires seen == Reached(changes, k)
    requires DistinctUpTo(changes, k + 1)
    ensures ScanFrom(changes, Drift(changes, k), k, seen, fuel).Some? ==>
              exists s :: k < s <= k + fuel && IsFirstRepeat(changes, s)
                          && ScanFrom(changes, Drift(changes, k), k, seen, fuel).value == Drift(changes, s)
    ensures ScanFrom(changes, Drift(changes, k), k, seen, fuel).None? ==> DistinctUpTo(changes, k + fuel + 1)
    decreases fuel
  {
    if fuel > 0 {
      var next := Drift(changes, k + 1);
      if next in seen {
        var j :| 0 <= j <= k && Drift(changes, j) == next;
        assert IsFirstRepeat(changes, k + 1);
      } else {
        FreshStep(changes, k, seen);
        ScanFromFindsFirstRepeat(changes, k + 1, seen + {next}, fuel - 1);
      }
    }
  }

  /** The iterator version returns `Some(v)` exactly when the first repeat happens within the fuel, and `v` is its frequency. */
  lemma ScanFindIsFirstRepeat(changes: seq<int>, fuel: nat, s: nat)
    requires IsFirstRepeat(changes, s)
    ensures s <= fuel <==> ScanFind(changes, fuel).Some?
    ensures ScanFind(changes, fuel).Some? ==> ScanFind(changes, fuel).value == Drift(changes, s)
  {
    assert Drift(changes, 0) == 0;
    assert Reached(changes, 0) == {0};
    ScanFromFindsFirstRepeat(changes, 0, {0}, fuel);
    var r := ScanFind(changes, fuel);
    if r.Some? {
      var t :| 0 < t <= fuel && IsFirstRepeat(changes, t) && r.value == Drift(changes, t);
      FirstRepeatUnique(changes, s, t);
    }
  }

  /**
    Part 2, loop version: add changes from the cycled list, stopping at the
    first running frequency already in `seen` (which starts as {0}). At most
    `fuel` changes are taken; `stopped` is false when the fuel ran out first.
   */
  method FirstRepeatLoop(changes: seq<int>, fuel: nat) returns (frequency: int, steps: nat, stopped: bool)
    ensures |changes| == 0 ==> stopped && steps == 0 && frequency == 0 && ScanFind(changes, fuel) == None
    ensures |changes| > 0 && stopped ==> IsFirstRepeat(changes, steps) && frequency == Drift(changes, steps)
    ensures |changes| > 0 && !stopped ==> steps == fuel && DistinctUpTo(changes, fuel + 1)
    ensures |changes| > 0 ==> ScanFind(changes, fuel) == (if stopped then Some(frequency) else None)
  {
    frequency, steps, stopped := 0, 0, false;
    if |changes| == 0 {
      stopped := true;
      return;
    }
    var seen: set<int> := {0};
    while steps < fuel
      invariant steps <= fuel
      invariant frequency == Drift(changes, steps)
      invariant seen == Reached(changes, steps)
      invariant DistinctUpTo(changes, steps + 1)
      invariant ScanFind(changes, fuel) == ScanFrom(changes, frequency, steps, seen, fuel - steps)
    {
      ScanStep(changes, steps, seen, fuel - steps);
      frequency := frequency + changes[steps % |changes|];
      steps := steps + 1;
      if frequency in seen {
        stopped := true;
        return;
      }
      seen := seen + {frequency};
    }
  }

  /** With the single change +1 the running frequency after `k` steps is `k`. */
  lemma {:induction false} DriftOfOne(k: nat)
    ensures Drift([1], k) == k
  {
    if k > 0 {
      DriftOfOne(k - 1);
    }
  }

  /** Termination is not guaranteed: the list [+1] never revisits a frequency. */
  lemma NeverRepeats(k: nat)
    ensures !IsFirstRepeat([1], k)
  {
    if IsFirstRepeat([1], k) {
      var j :| 0 <= j < k && Drift([1], j) == Drift([1], k);
      DriftOfOne(j);
      DriftOfOne(k);
    }
  }
}
