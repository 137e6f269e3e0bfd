/**
  Box-ID checks: each line of the input is a box ID. Part 1 multiplies the
  number of IDs holding some letter exactly twice by the number holding some
  letter exactly three times; part 2 finds two IDs that differ in exactly one
  position and reports their common letters.
 */
module BoxIds {
  import opened Wrappers

  /** The two flags reported for one ID. */
  datatype Duplicates = Duplicates(hasTwo: bool, hasThree: bool)

  /** Some letter of `id` occurs in it exactly `n` times. */
  ghost predicate SomeLetterOccurs(id: string, n: nat)
  {
    exists i :: 0 <= i < |id| && multiset(id)[id[i]] == n
  }

  /**
    Builds the letter-frequency table of `id`, then walks its counts in the
    table's (unspecified) order, setting a flag per exact count and stopping
    early once both flags are set.
   */
  method CountDuplicates(id: string) returns (d: Duplicates)
    ensures d.hasTwo <==> SomeLetterOccurs(id, 2)
    ensures d.hasThree <==> SomeLetterOccurs(id, 3)
  {
    var counter: map<char, nat> := map[];
    var i := 0;
    while i < |id|
      invariant 0 <= i <= |id|
      invariant counter.Keys == set k | 0 <= k < i :: id[k]
      invariant forall c :: c in counter ==> counter[c] == multiset(id[..i])[c]
    {
      var c := id[i];
      var entry := if c in counter then counter[c] else 0;
      assert id[..i + 1] == id[..i] + [c];
      counter := counter[c := entry + 1];
      i := i + 1;
    }
    assert id[..i] == id;

    var hasTwo, hasThree := false, false;
    var remaining := counter.Keys;
    while remaining != {}
      invariant remaining <= counter.Keys
      invariant hasTwo <==> exists c :: c in counter && c !in remaining && counter[c] == 2
      invariant hasThree <==> exists c :: c in counter && c !in remaining && counter[c] == 3
      decreases remaining
    {
      var c :| c in remaining;
      var v := counter[c];
      if v == 2 && v != 3 {
        hasTwo := true;
      }
      if v == 3 && v != 2 {
        hasThree := true;
      }
      remaining := remaining - {c};
      if hasTwo && hasThree {
        break;
      }
    }
    d := Duplicates(hasTwo, hasThree);
    CountsWitness(id, counter, 2);
    CountsWitness(id, counter, 3);
  }

  /** A frequency table of `id` has an entry `n` exactly when some letter occurs `n` times. */
  lemma CountsWitness(id: string, counter: map<char, nat>, n: nat)
    requires counter.Keys == set k | 0 <= k < |id| :: id[k]
    requires forall c :: c in counter ==> counter[c] == multiset(id)[c]
    ensures SomeLetterOccurs(id, n) <==> exists c :: c in counter && counter[c] == n
  {
    if SomeLetterOccurs(id, n) {
      var i :| 0 <= i < |id| && multiset(id)[id[i]] == n;
      assert id[i] in counter;
    }
    if exists c :: c in counter && counter[c] == n {
      var c :| c in counter && counter[c] == n;
      var k :| 0 <= k < |id| && id[k] == c;
    }
  }

  /** Indices of the first `n` flag pairs whose `hasThree` (or else `hasTwo`) flag is set. */
  ghost function Flagged(ds: seq<Duplicates>, n: nat, three: bool): set<nat>
    requires n <= |ds|
  {
    set i | 0 <= i < n && (if three then ds[i].hasThree else ds[i].hasTwo)
  }

  /** The checksum fold: counts the IDs with each flag, left to right. */
  function Tally(ds: seq<Duplicates>): (nat, nat)
  {
    if |ds| == 0 then (0, 0)
    else
      var (twos, threes) := Tally(ds[..|ds| - 1]);
      var last := ds[|ds| - 1];
      (if last.hasTwo then twos + 1 else twos, if last.hasThree then threes + 1 else threes)
  }

  /** The fold counts exactly the IDs carrying each flag. */
  lemma {:induction false} TallyCounts(ds: seq<Duplicates>)
    ensures Tally(ds).0 == |Flagged(ds, |ds|, false)|
    ensures Tally(ds).1 == |Flagged(ds, |ds|, true)|
  {
    if |ds| > 0 {
      var n := |ds| - 1;
      var front := ds[..n];
      TallyCounts(front);
      FlaggedStep(ds, n, false);
      FlaggedStep(ds, n, true);
      assert Flagged(front, n, false) == Flagged(ds, n, false);
      assert Flagged(front, n, true) == Flagged(ds, n, true);
    }
  }

  lemma FlaggedStep(ds: seq<Duplicates>, n: nat, three: bool)
    requires n < |ds|
    ensures var set' := Flagged(ds, n + 1, three);
            var flag := if three then ds[n].hasThree else ds[n].hasTwo;
            |set'| == |Flagged(ds, n, three)| + (if flag then 1 else 0)
  {
    var flag := if three then ds[n].hasThree else ds[n].hasTwo;
    var before := Flagged(ds, n, three);
    assert n !in before;
    if flag {
      assert Flagged(ds, n + 1, three) == before + {n};
    } else {
      assert Flagged(ds, n + 1, three) == before;
    }
  }

  /** Part 1: the checksum of a list of IDs. */
  method Checksum(ids: seq<string>) returns (checksum: nat)
    ensures checksum == |set i | 0 <= i < |ids| && SomeLetterOccurs(ids[i], 2)|
                        * |set i | 0 <= i < |ids| && SomeLetterOccurs(ids[i], 3)|
  {
    var ds: seq<Duplicates> := [];
    var k := 0;
    while k < |ids|
      invariant 0 <= k <= |ids| && |ds| == k
      invariant forall m :: 0 <= m < k ==> (ds[m].hasTwo <==> SomeLetterOccurs(ids[m], 2))
      invariant forall m :: 0 <= m < k ==> (ds[m].hasThree <==> SomeLetterOccurs(ids[m], 3))
    {
      var d := CountDuplicates(ids[k]);
      ds := ds + [d];
      k := k + 1;
    }
    var totals := Tally(ds);
    TallyCounts(ds);
    assert Flagged(ds, |ds|, false) == set i | 0 <= i < |ids| && SomeLetterOccurs(ids[i], 2);
    assert Flagged(ds, |ds|, true) == set i | 0 <= i < |ids| && SomeLetterOccurs(ids[i], 3);
    checksum := totals.0 * totals.1;
  }

  function Min(x: nat, y: nat): nat
  {
    if x <= y then x else y
  }

  /** The positions below `n` at which `a` and `b` differ, in increasing order. */
  function Mismatches(a: string, b: string, n: nat): (ps: seq<nat>)
    requires n <= |a| && n <= |b|
    ensures forall k :: 0 <= k < |ps| ==> ps[k] < n && a[ps[k]] != b[ps[k]]
    ensures forall i :: 0 <= i < n && a[i] != b[i] ==> i in ps
    ensures forall k, l :: 0 <= k < l < |ps| ==> ps[k] < ps[l]
  {
    if n == 0 then [] else Mismatches(a, b, n - 1) + (if a[n - 1] != b[n - 1] then [n - 1] else [])
  }

  /** The number of positions, within the shorter of the two strings, where they differ. */
  ghost function MismatchCount(a: string, b: string): nat
  {
    |MismatchSet(a, b, Min(|a|, |b|))|
  }

  ghost function MismatchSet(a: string, b: string, n: nat): set<nat>
    requires n <= |a| && n <= |b|
  {
    set i | 0 <= i < n && a[i] != b[i]
  }

  /** The collected positions are distinct, so there are as many as there are differing positions. */
  lemma {:induction false} MismatchesCounted(a: string, b: string, n: nat)
    requires n <= |a| && n <= |b|
    ensures |Mismatches(a, b, n)| == |MismatchSet(a, b, n)|
  {
    var ps := Mismatches(a, b, n);
    assert Listed(ps) == MismatchSet(a, b, n);
    DistinctCard(ps);
  }

  /** The positions listed in `ps`. */
  ghost function Listed(ps: seq<nat>): set<nat>
  {
    set x | x in ps
  }

  /** A list without repeats has as many elements as its set of elements. */
  lemma {:induction false} DistinctCard(ps: seq<nat>)
    requires forall k, l :: 0 <= k < l < |ps| ==> ps[k] != ps[l]
    ensures |Listed(ps)| == |ps|
  {
    if |ps| == 0 {
      assert Listed(ps) == {};
    } else {
      var front, last := ps[..|ps| - 1], ps[|ps| - 1];
      DistinctCard(front);
      assert Listed(ps) == Listed(front) + {last};
      assert last !in Listed(front);
    }
  }

  /**
    Zips `a` with `b`, collects the positions where they differ, and returns
    the first one when there are exactly `count` of them. With `count == 0`
    and no difference the source indexes an empty vector, so that case is
    excluded.
   */
  function DiffBy(count: nat, a: string, b: string): (r: Option<nat>)
    requires count != 0 || MismatchCount(a, b) != 0
    ensures r.Some? <==> MismatchCount(a, b) == count
    ensures r.Some? ==> r.value < Min(|a|, |b|) && a[r.value] != b[r.value]
    ensures r.Some? ==> forall i :: 0 <= i < r.value ==> a[i] == b[i]
  {
    MismatchesCounted(a, b, Min(|a|, |b|));
    var diffs := Mismatches(a, b, Min(|a|, |b|));
    if |diffs| == count then
      assert forall i :: 0 <= i < diffs[0] ==> a[i] == b[i] by {
        forall i | 0 <= i < diffs[0] && a[i] != b[i]
          ensures false
        {
        }
      }
      Some(diffs[0])
    else
      None
  }

  /** Identical strings have no differing position, so no position is reported. */
  lemma DiffByIdentical()
    ensures DiffBy(1, "abc", "abc") == None
  {
    assert Mismatches("abc", "abc", 3) == [];
  }

  /** "adc" and "abc" differ only at position 1. */
  lemma DiffByOnePosition()
    ensures DiffBy(1, "adc", "abc") == Some(1)
  {
    assert Mismatches("adc", "abc", 3) == [1];
  }

  /** "abc" and "def" differ everywhere, which is not exactly one position. */
  lemma DiffByEverywhere()
    ensures DiffBy(1, "abc", "def") == None
  {
    assert Mismatches("abc", "def", 3) == [0, 1, 2];
  }

  /** `s` with the letter at position `p` removed. */
  function RemoveAt(s: string, p: nat): (r: string)
    requires p < |s|
    ensures |r| == |s| - 1
    ensures forall k :: 0 <= k < p ==> r[k] == s[k]
    ensures forall k :: p <= k < |r| ==> r[k] == s[k + 1]
  {
    s[..p] + s[p + 1..]
  }

  /**
    When two equally long IDs differ in exactly one position, removing that
    position from either leaves the same string: their common letters.
   */
  lemma CommonLetters(a: string, b: string, p: nat)
    requires |a| == |b|
    requires DiffBy(1, a, b) == Some(p)
    ensures RemoveAt(a, p) == RemoveAt(b, p)
  {
    var diff := MismatchSet(a, b, |a|);
    assert |diff| == 1 && p in diff;
    assert diff - {p} == {} by {
      assert |diff - {p}| == 0;
    }
    forall k | 0 <= k < |a| && k != p
      ensures a[k] == b[k]
    {
      assert k !in diff - {p};
    }
    var ra, rb := RemoveAt(a, p), RemoveAt(b, p);
    assert forall i :: 0 <= i < |ra| ==> ra[i] == rb[i];
  }

  /** Pair `(i', j')` comes before pair `(i, j)` in the nested scan. */
  predicate ScannedBefore(i': nat, j': nat, i: nat, j: nat)
  {
    i' < i || (i' == i && j' < j)
  }

  /**
    Part 2: scans all ordered pairs of distinct IDs, row by row, and stops at
    the first pair that differs in exactly one position; the answer is the
    first ID of that pair with the differing letter removed.
   */
  method FindCorrectIds(ids: seq<string>) returns (common: Option<string>, i: nat, j: nat)
    ensures common.Some? ==> i < |ids| && j < |ids| && i != j && DiffBy(1, ids[i], ids[j]).Some?
    ensures common.Some? ==>
              var p := DiffBy(1, ids[i], ids[j]).value;
              && common.value == RemoveAt(ids[i], p)
              && |common.value| == |ids[i]| - 1
              && (|ids[i]| == |ids[j]| ==> common.value == RemoveAt(ids[j], p))
    ensures common.Some? ==>
              forall i', j' :: 0 <= i' < |ids| && 0 <= j' < |ids| && i' != j' && ScannedBefore(i', j', i, j)
                ==> DiffBy(1, ids[i'], ids[j']).None?
    ensures common.None? ==>
              forall i', j' :: 0 <= i' < |ids| && 0 <= j' < |ids| && i' != j' ==> DiffBy(1, ids[i'], ids[j']).None?
  {
    common, i, j := None, 0, 0;
    while i < |ids|
      invariant i <= |ids|
      invariant forall i', j' :: 0 <= i' < i && 0 <= j' < |ids| && i' != j' ==> DiffBy(1, ids[i'], ids[j']).None?
    {
      j := 0;
      while j < |ids|
        invariant j <= |ids|
        invariant forall j' :: 0 <= j' < j && i != j' ==> DiffBy(1, ids[i], ids[j']).None?
      {
        if i != j {
          var d := DiffBy(1, ids[i], ids[j]);
          if d.Some? {
            common := Some(RemoveAt(ids[i], d.value));
            if |ids[i]| == |ids[j]| {
              CommonLetters(ids[i], ids[j], d.value);
            }
            return;
          }
        }
        j := j + 1;
      }
      i := i + 1;
    }
  }
}
