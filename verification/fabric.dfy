/**
  Fabric claims: each claim asks for a rectangle of square inches on one
  large sheet of fabric. The claims are registered on a board, a grid whose
  cells list every claim covering them; the board then counts the cells
  claimed more than once and finds claims that overlap no other claim.
 */
module Fabric {

  /** A rectangle `width` wide and `height` tall whose top-left cell is at column `left`, row `top`. */
  datatype Claim = Claim(id: nat, left: nat, top: nat, width: nat, height: nat)

  /** A cell of the board, addressed as `cells[row][col]`. */
  datatype Coord = Coord(row: nat, col: nat)

  /** Cell `p` lies inside the rectangle of claim `c`. */
  predicate InClaim(c: Claim, p: Coord)
  {
    c.top <= p.row < c.top + c.height && c.left <= p.col < c.left + c.width
  }

  /** The exclusive bottom-right corner of a claim, as (horizontal, vertical). */
  function MaxExtent(c: Claim): (r: (nat, nat))
  {
    (c.left + c.width, c.top + c.height)
  }

  /** Every cell of a claim lies strictly left of and above its maximal extent, which is tight. */
  lemma MaxExtentBoundsClaim(c: Claim, p: Coord)
    ensures InClaim(c, p) ==> p.col < MaxExtent(c).0 && p.row < MaxExtent(c).1
    ensures c.width > 0 && c.height > 0 ==> InClaim(c, Coord(MaxExtent(c).1 - 1, MaxExtent(c).0 - 1))
  {
  }

  /** The half-open integer range `lo..hi`, ascending; empty when `hi <= lo`. */
  function Range(lo: nat, hi: nat): (r: seq<nat>)
    ensures |r| == if lo <= hi then hi - lo else 0
    ensures forall k :: 0 <= k < |r| ==> r[k] == lo + k
    decreases hi - lo
  {
    if hi <= lo then [] else [lo] + Range(lo + 1, hi)
  }

  /** The columns a claim covers. */
  function HorizontalExtent(c: Claim): (r: seq<nat>)
    ensures |r| == c.width
    ensures forall x :: x in r <==> c.left <= x < c.left + c.width
  {
    var r := Range(c.left, c.left + c.width);
    assert forall x :: c.left <= x < c.left + c.width ==> x in r by {
      forall x | c.left <= x < c.left + c.width
        ensures x in r
      {
        assert r[x - c.left] == x;
      }
    }
    r
  }

  /** The rows a claim covers. */
  function VerticalExtent(c: Claim): (r: seq<nat>)
    ensures |r| == c.height
    ensures forall x :: x in r <==> c.top <= x < c.top + c.height
  {
    var r := Range(c.top, c.top + c.height);
    assert forall x :: c.top <= x < c.top + c.height ==> x in r by {
      forall x | c.top <= x < c.top + c.height
        ensures x in r
      {
        assert r[x - c.top] == x;
      }
    }
    r
  }

  predicate Increasing(s: seq<nat>)
  {
    forall a, b :: 0 <= a < b < |s| ==> s[a] < s[b]
  }

  /** Row-major order of cells: by row, then by column. */
  predicate Before(p: Coord, q: Coord)
  {
    p.row < q.row || (p.row == q.row && p.col < q.col)
  }

  predicate RowMajor(cs: seq<Coord>)
  {
    forall a, b :: 0 <= a < b < |cs| ==> Before(cs[a], cs[b])
  }

  /** The inner loop of `extent`: one row paired with every column in turn. */
  function RowCells(row: nat, cols: seq<nat>): seq<Coord>
  {
    seq(|cols|, j requires 0 <= j < |cols| => Coord(row, cols[j]))
  }

  /** The outer loop of `extent`: the cells of each row appended in row order. */
  function ExtentOf(rows: seq<nat>, cols: seq<nat>): seq<Coord>
  {
    if |rows| == 0 then [] else ExtentOf(rows[..|rows| - 1], cols) + RowCells(rows[|rows| - 1], cols)
  }

  lemma {:induction false} ExtentOfSpec(rows: seq<nat>, cols: seq<nat>)
    ensures |ExtentOf(rows, cols)| == |rows| * |cols|
    ensures forall p :: p in ExtentOf(rows, cols) <==> p.row in rows && p.col in cols
    ensures Increasing(rows) && Increasing(cols) ==> RowMajor(ExtentOf(rows, cols))
  {
    if |rows| > 0 {
      var n := |rows| - 1;
      var front, last := ExtentOf(rows[..n], cols), RowCells(rows[n], cols);
      ExtentOfSpec(rows[..n], cols);
      assert ExtentOf(rows, cols) == front + last;
      assert |front + last| == n * |cols| + |cols| == |rows| * |cols|;
      forall p: Coord
        ensures p in front + last <==> p.row in rows && p.col in cols
      {
        if p.row in rows && p.col in cols {
          var i :| 0 <= i < |rows| && rows[i] == p.row;
          var j :| 0 <= j < |cols| && cols[j] == p.col;
          if i < n {
            assert rows[..n][i] == p.row;
            assert p in front;
          } else {
            assert last[j] == p;
          }
        }
        if p in front {
          assert p.row in rows[..n];
        }
      }
      if Increasing(rows) && Increasing(cols) {
        forall a, b | 0 <= a < b < |front + last|
          ensures Before((front + last)[a], (front + last)[b])
        {
          if b >= |front| && a < |front| {
            assert front[a].row in rows[..n];
          }
        }
      }
    }
  }

  /**
    The cells a claim covers, listed row by row and, within a row, column by
    column.
   */
  function Extent(c: Claim): (r: seq<Coord>)
    ensures |r| == c.width * c.height
    ensures forall p :: p in r <==> InClaim(c, p)
    ensures RowMajor(r)
    ensures forall a, b :: 0 <= a < b < |r| ==> r[a] != r[b]
  {
    var rows, cols := VerticalExtent(c), HorizontalExtent(c);
    ExtentOfSpec(rows, cols);
    var r := ExtentOf(rows, cols);
    assert |r| == c.height * c.width;
    r
  }

  /** The source's example: a 3 by 3 claim covers nine cells. */
  lemma ThreeByThreeExtent()
    ensures |Extent(Claim(0, 1, 1, 3, 3))| == 9
  {
  }

  /** The board: `cells[row][col]` lists, in insertion order, the claims covering that cell. */
  datatype Board = Board(cells: seq<seq<seq<Claim>>>)

  predicate InBounds(b: Board, p: Coord)
  {
    p.row < |b.cells| && p.col < |b.cells[p.row]|
  }

  function Cell(b: Board, p: Coord): seq<Claim>
    requires InBounds(b, p)
  {
    b.cells[p.row][p.col]
  }

  /** Two boards have the same rows of the same lengths. */
  predicate SameShape(b: Board, b': Board)
  {
    |b.cells| == |b'.cells| && forall r :: 0 <= r < |b.cells| ==> |b.cells[r]| == |b'.cells[r]|
  }

  /**
    A board with `width` outer vectors of `height` empty cells each. The
    outer index is the one `add` uses for rows.
   */
  function NewBoard(width: nat, height: nat): (b: Board)
    ensures |b.cells| == width
    ensures forall p :: InBounds(b, p) <==> p.row < width && p.col < height
    ensures forall p :: InBounds(b, p) ==> Cell(b, p) == []
  {
    Board(seq(width, _ => seq(height, _ => [])))
  }

  /** Every cell of the claim is a valid `cells[row][col]` index, as `add` demands. */
  predicate Fits(b: Board, c: Claim)
  {
    forall p :: p in Extent(c) ==> InBounds(b, p)
  }

  /** Fitting depends only on the board's shape. */
  lemma FitsSameShape(b: Board, b': Board, c: Claim)
    requires SameShape(b, b') && Fits(b, c)
    ensures Fits(b', c)
  {
  }

  /**
    Registers a claim: walks its extent and appends the claim to each cell
    it covers.
   */
  method Add(b: Board, c: Claim) returns (b': Board)
    requires Fits(b, c)
    ensures SameShape(b, b')
    ensures forall p :: InBounds(b, p) ==>
              Cell(b', p) == if InClaim(c, p) then Cell(b, p) + [c] else Cell(b, p)
  {
    var coords := Extent(c);
    b' := b;
    var k := 0;
    while k < |coords|
      invariant 0 <= k <= |coords|
      invariant SameShape(b, b')
      invariant forall p :: InBounds(b, p) ==>
                  Cell(b', p) == if p in coords[..k] then Cell(b, p) + [c] else Cell(b, p)
    {
      var p := coords[k];
      assert InBounds(b, p);
      assert p !in coords[..k];
      assert coords[..k + 1] == coords[..k] + [p];
      var row := b'.cells[p.row];
      b' := Board(b'.cells[p.row := row[p.col := row[p.col] + [c]]]);
      k := k + 1;
    }
    assert coords[..k] == coords;
  }

  /** The claims covering cell `p`, in the order they are listed. */
  function Covering(claims: seq<Claim>, p: Coord): (r: seq<Claim>)
    ensures forall d :: d in r ==> InClaim(d, p)
    ensures forall d :: InClaim(d, p) ==> multiset(r)[d] == multiset(claims)[d]
  {
    if |claims| == 0 then []
    else
      var front := claims[..|claims| - 1];
      var last := claims[|claims| - 1];
      assert claims == front + [last];
      Covering(front, p) + (if InClaim(last, p) then [last] else [])
  }

  /** Covering keeps input order: the claims listed first come first. */
  lemma {:induction false} CoveringAppend(a: seq<Claim>, b: seq<Claim>, p: Coord)
    ensures Covering(a + b, p) == Covering(a, p) + Covering(b, p)
    decreases |b|
  {
    if |b| == 0 {
      assert a + b == a;
    } else {
      var front := b[..|b| - 1];
      assert (a + b)[..|a + b| - 1] == a + front;
      CoveringAppend(a, front, p);
    }
  }

  /** The largest right edge over all claims; `max().unwrap()` panics on no claims. */
  function MaxHorizontal(claims: seq<Claim>): (m: nat)
    requires |claims| > 0
    ensures forall c :: c in claims ==> MaxExtent(c).0 <= m
    ensures exists c :: c in claims && MaxExtent(c).0 == m
  {
    if |claims| == 1 then MaxExtent(claims[0]).0
    else
      var rest := MaxHorizontal(claims[1..]);
      if MaxExtent(claims[0]).0 >= rest then MaxExtent(claims[0]).0 else rest
  }

  /** The largest bottom edge over all claims. */
  function MaxVertical(claims: seq<Claim>): (m: nat)
    requires |claims| > 0
    ensures forall c :: c in claims ==> MaxExtent(c).1 <= m
    ensures exists c :: c in claims && MaxExtent(c).1 == m
  {
    if |claims| == 1 then MaxExtent(claims[0]).1
    else
      var rest := MaxVertical(claims[1..]);
      if MaxExtent(claims[0]).1 >= rest then MaxExtent(claims[0]).1 else rest
  }

  /**
    The board as the tests size it: `max_horizontal + 1` outer vectors of
    `max_vertical + 1` cells. The outer index is a row, so this is only
    large enough when no claim reaches further down than the widest reaches
    right.
   */
  function BoardAsWritten(claims: seq<Claim>): (b: Board)
    requires |claims| > 0
    ensures forall p :: InBounds(b, p) <==> p.row <= MaxHorizontal(claims) && p.col <= MaxVertical(claims)
    ensures forall p :: InBounds(b, p) ==> Cell(b, p) == []
  {
    NewBoard(MaxHorizontal(claims) + 1, MaxVertical(claims) + 1)
  }

  /** A single 1-wide, 3-tall claim at the origin does not fit the board sized as written. */
  lemma BoardAsWrittenTooShort()
    ensures !Fits(BoardAsWritten([Claim(1, 0, 0, 1, 3)]), Claim(1, 0, 0, 1, 3))
  {
    var c := Claim(1, 0, 0, 1, 3);
    assert MaxHorizontal([c]) == 1 && MaxVertical([c]) == 3;
    assert InClaim(c, Coord(2, 0));
    assert Coord(2, 0) in Extent(c);
    assert !InBounds(BoardAsWritten([c]), Coord(2, 0));
  }

  /** The board sized with rows outermost: every claim of the input fits it. */
  function SizedBoard(claims: seq<Claim>): (b: Board)
    requires |claims| > 0
    ensures forall c :: c in claims ==> Fits(b, c)
    ensures forall p :: InBounds(b, p) ==> Cell(b, p) == []
  {
    var b := NewBoard(MaxVertical(claims) + 1, MaxHorizontal(claims) + 1);
    assert forall c, p :: c in claims && InClaim(c, p) ==> InBounds(b, p) by {
      forall c, p | c in claims && InClaim(c, p)
        ensures InBounds(b, p)
      {
        MaxExtentBoundsClaim(c, p);
      }
    }
    b
  }

  /** The board registers exactly the listed claims: every cell holds the claims covering it, in input order. */
  ghost predicate BuiltFrom(b: Board, claims: seq<Claim>)
  {
    && (forall c :: c in claims ==> Fits(b, c))
    && (forall p :: InBounds(b, p) ==> Cell(b, p) == Covering(claims, p))
  }

  /** Adds every claim in turn to an empty board that each of them fits, as the tests do once the board is sized. */
  method BuildOn(start: Board, claims: seq<Claim>) returns (b: Board)
    requires forall p :: InBounds(start, p) ==> Cell(start, p) == []
    requires forall c :: c in claims ==> Fits(start, c)
    ensures BuiltFrom(b, claims) && SameShape(start, b)
  {
    b := start;
    var k := 0;
    while k < |claims|
      invariant 0 <= k <= |claims|
      invariant SameShape(start, b)
      invariant forall p :: InBounds(b, p) ==> Cell(b, p) == Covering(claims[..k], p)
    {
      FitsSameShape(start, b, claims[k]);
      assert claims[..k + 1][..k] == claims[..k];
      b := Add(b, claims[k]);
      k := k + 1;
    }
    assert claims[..k] == claims;
    forall c | c in claims
      ensures Fits(b, c)
    {
      FitsSameShape(start, b, c);
    }
  }

  /** The tests' construction on inputs where it does not panic: the board sized as written, then every claim added. */
  method BuildAsWritten(claims: seq<Claim>) returns (b: Board)
    requires |claims| > 0
    requires forall c :: c in claims ==> Fits(BoardAsWritten(claims), c)
    ensures BuiltFrom(b, claims)
    ensures |b.cells| == MaxHorizontal(claims) + 1
  {
    b := BuildOn(BoardAsWritten(claims), claims);
  }

  /** The corrected construction: the board sized with rows outermost, then every claim added. */
  method BuildBoard(claims: seq<Claim>) returns (b: Board)
    requires |claims| > 0
    ensures BuiltFrom(b, claims)
    ensures |b.cells| == MaxVertical(claims) + 1
  {
    b := BuildOn(SizedBoard(claims), claims);
  }

  /** The number of cells among the first `n` of a row claimed more than once. */
  function RowConflicts(row: seq<seq<Claim>>, n: nat): (count: nat)
    requires n <= |row|
    ensures count <= n
  {
    if n == 0 then 0 else RowConflicts(row, n - 1) + (if |row[n - 1]| > 1 then 1 else 0)
  }

  /** The conflicts in the first `m` rows: the outer fold of `find_total_conflicts`. */
  function Conflicts(b: Board, m: nat): nat
    requires m <= |b.cells|
  {
    if m == 0 then 0 else Conflicts(b, m - 1) + RowConflicts(b.cells[m - 1], |b.cells[m - 1]|)
  }

  /** Counts the cells of the board claimed more than once. */
  function FindTotalConflicts(b: Board): nat
  {
    Conflicts(b, |b.cells|)
  }

  /** Every cell of the board. */
  ghost function AllCells(b: Board): (cs: set<Coord>)
    ensures forall p :: p in cs <==> InBounds(b, p)
  {
    var cs := set r: nat, c: nat | r < |b.cells| && c < |b.cells[r]| :: Coord(r, c);
    assert forall p :: InBounds(b, p) ==> p in cs by {
      forall p | InBounds(b, p)
        ensures p in cs
      {
        assert p == Coord(p.row, p.col);
      }
    }
    cs
  }

  /** The cells of the first `m` rows claimed more than once. */
  ghost function ConflictCells(b: Board, m: nat): set<Coord>
    requires m <= |b.cells|
  {
    set p | p in AllCells(b) && p.row < m && |Cell(b, p)| > 1
  }

  /** The cells among the first `n` of row `r` claimed more than once. */
  ghost function RowConflictCells(b: Board, r: nat, n: nat): set<Coord>
    requires r < |b.cells| && n <= |b.cells[r]|
  {
    set p | p in AllCells(b) && p.row == r && p.col < n && |Cell(b, p)| > 1
  }

  lemma {:induction false} RowConflictsCounted(b: Board, r: nat, n: nat)
    requires r < |b.cells| && n <= |b.cells[r]|
    ensures RowConflicts(b.cells[r], n) == |RowConflictCells(b, r, n)|
  {
    if n > 0 {
      RowConflictsCounted(b, r, n - 1);
      RowConflictCellsStep(b, r, n);
    }
  }

  /** One more cell of the row joins its contested cells exactly when it holds more than one claim. */
  lemma RowConflictCellsStep(b: Board, r: nat, n: nat)
    requires r < |b.cells| && 0 < n <= |b.cells[r]|
    ensures |RowConflictCells(b, r, n)| == |RowConflictCells(b, r, n - 1)| + (if |b.cells[r][n - 1]| > 1 then 1 else 0)
  {
    var p := Coord(r, n - 1);
    var now, before := RowConflictCells(b, r, n), RowConflictCells(b, r, n - 1);
    var added := if |b.cells[r][n - 1]| > 1 then {p} else {};
    assert now == before + added by {
      assert InBounds(b, p);
    }
    assert before * added == {};
    assert |now| == |before| + |added|;
  }

  lemma {:induction false} ConflictsCounted(b: Board, m: nat)
    requires m <= |b.cells|
    ensures Conflicts(b, m) == |ConflictCells(b, m)|
  {
    if m > 0 {
      var r := m - 1;
      ConflictsCounted(b, r);
      RowConflictsCounted(b, r, |b.cells[r]|);
      var older, newer := ConflictCells(b, r), RowConflictCells(b, r, |b.cells[r]|);
      assert ConflictCells(b, m) == older + newer;
      assert older * newer == {};
    }
  }

  /** The cells holding more than one claim. */
  ghost function Contested(b: Board): set<Coord>
  {
    set p | p in AllCells(b) && |Cell(b, p)| > 1
  }

  /** `find_total_conflicts` counts exactly the cells holding more than one claim. */
  lemma TotalConflictsCounted(b: Board)
    ensures FindTotalConflicts(b) == |Contested(b)|
  {
    ConflictsCounted(b, |b.cells|);
    assert ConflictCells(b, |b.cells|) == Contested(b);
  }

  /** The number of cells on the board. */
  function CellCount(b: Board, m: nat): nat
    requires m <= |b.cells|
  {
    if m == 0 then 0 else CellCount(b, m - 1) + |b.cells[m - 1]|
  }

  /** There are never more conflicts than cells. */
  lemma {:induction false} ConflictsAtMostCells(b: Board, m: nat)
    requires m <= |b.cells|
    ensures Conflicts(b, m) <= CellCount(b, m)
  {
    if m > 0 {
      ConflictsAtMostCells(b, m - 1);
    }
  }

  /** A fresh board has no conflicts. */
  lemma FreshBoardHasNoConflicts(width: nat, height: nat)
    ensures FindTotalConflicts(NewBoard(width, height)) == 0
  {
    var b := NewBoard(width, height);
    TotalConflictsCounted(b);
    assert Contested(b) == {};
  }

  /** The cells of the board that two or more of the claims cover. */
  ghost function CoveredTwice(b: Board, claims: seq<Claim>): set<Coord>
  {
    set p | p in AllCells(b) && |Covering(claims, p)| > 1
  }

  /** On a built board, the conflicts are the cells that two or more claims cover. */
  lemma BuiltConflicts(b: Board, claims: seq<Claim>)
    requires BuiltFrom(b, claims)
    ensures FindTotalConflicts(b) == |CoveredTwice(b, claims)|
  {
    TotalConflictsCounted(b);
    assert Contested(b) == CoveredTwice(b, claims);
  }

  /**
    Every cell of the claim's extent holds exactly one claim, and that
    claim is `c` itself.
   */
  predicate HasNoConflicts(b: Board, c: Claim)
    requires Fits(b, c)
  {
    var coords := Extent(c);
    forall k :: 0 <= k < |coords| ==>
      var cell := (assert coords[k] in coords; b.cells[coords[k].row][coords[k].col]);
      |cell| == 1 && cell[0] == c
  }

  /** `has_no_conflicts` holds exactly when every cell of the claim's rectangle holds just that claim. */
  lemma SoleOccupant(b: Board, c: Claim)
    requires Fits(b, c)
    ensures HasNoConflicts(b, c) <==> forall p :: InClaim(c, p) ==> InBounds(b, p) && Cell(b, p) == [c]
  {
    var coords := Extent(c);
    if HasNoConflicts(b, c) {
      forall p | InClaim(c, p)
        ensures InBounds(b, p) && Cell(b, p) == [c]
      {
        var k :| 0 <= k < |coords| && coords[k] == p;
      }
    }
    if forall p :: InClaim(c, p) ==> InBounds(b, p) && Cell(b, p) == [c] {
      forall k | 0 <= k < |coords|
        ensures InBounds(b, coords[k]) && b.cells[coords[k].row][coords[k].col] == [c]
      {
        assert coords[k] in coords;
        assert Cell(b, coords[k]) == [c];
      }
    }
  }

  /** A claim that occurs once in the input and covers no cell that another claim covers, is the only claim in its cells. */
  lemma SoleClaim(claims: seq<Claim>, c: Claim, p: Coord)
    requires InClaim(c, p)
    ensures Covering(claims, p) == [c] <==>
              multiset(claims)[c] == 1 && forall d :: d in claims && d != c ==> !InClaim(d, p)
  {
    if Covering(claims, p) == [c] {
      SoleClaimListedOnce(claims, c, p);
    }
    if multiset(claims)[c] == 1 && forall d :: d in claims && d != c ==> !InClaim(d, p) {
      ListedOnceSoleClaim(claims, c, p);
    }
  }

  lemma SoleClaimListedOnce(claims: seq<Claim>, c: Claim, p: Coord)
    requires InClaim(c, p) && Covering(claims, p) == [c]
    ensures multiset(claims)[c] == 1
    ensures forall d :: d in claims && d != c ==> !InClaim(d, p)
  {
    var r := Covering(claims, p);
    assert multiset(r)[c] == 1;
    forall d | d in claims && d != c
      ensures !InClaim(d, p)
    {
      assert multiset(r)[d] == 0;
      assert multiset(claims)[d] > 0;
    }
  }

  lemma ListedOnceSoleClaim(claims: seq<Claim>, c: Claim, p: Coord)
    requires InClaim(c, p) && multiset(claims)[c] == 1
    requires forall d :: d in claims && d != c ==> !InClaim(d, p)
    ensures Covering(claims, p) == [c]
  {
    var r := Covering(claims, p);
    forall d | d in r
      ensures d == c
    {
      assert multiset(claims)[d] == multiset(r)[d] > 0;
      assert d in claims;
    }
    assert multiset(r) == multiset{c} by {
      forall d
        ensures multiset(r)[d] == multiset{c}[d]
      {
        if d != c {
          assert d !in r;
        }
      }
    }
    assert |r| == |multiset(r)| == 1;
    assert r[0] in r;
  }

  /** A listed claim shares no cell with any other listed claim. */
  ghost predicate Disjoint(claims: seq<Claim>, c: Claim)
  {
    forall d, p :: d in claims && d != c && InClaim(c, p) ==> !InClaim(d, p)
  }

  /**
    On a built board, a listed claim has no conflicts exactly when no other
    claim shares a cell with it and, unless it covers no cell at all, it is
    listed only once.
   */
  lemma NoConflictsIffDisjoint(b: Board, claims: seq<Claim>, c: Claim)
    requires BuiltFrom(b, claims) && c in claims
    ensures HasNoConflicts(b, c) <==>
              && (c.width > 0 && c.height > 0 ==> multiset(claims)[c] == 1)
              && Disjoint(claims, c)
  {
    SoleOccupant(b, c);
    if HasNoConflicts(b, c) {
      NoConflictsMeansDisjoint(b, claims, c);
    }
    if (c.width > 0 && c.height > 0 ==> multiset(claims)[c] == 1) && Disjoint(claims, c) {
      DisjointMeansNoConflicts(b, claims, c);
    }
  }

  lemma NoConflictsMeansDisjoint(b: Board, claims: seq<Claim>, c: Claim)
    requires BuiltFrom(b, claims) && c in claims
    requires forall p :: InClaim(c, p) ==> InBounds(b, p) && Cell(b, p) == [c]
    ensures c.width > 0 && c.height > 0 ==> multiset(claims)[c] == 1
    ensures Disjoint(claims, c)
  {
    forall d, p | d in claims && d != c && InClaim(c, p)
      ensures !InClaim(d, p)
    {
      SoleClaim(claims, c, p);
    }
    if c.width > 0 && c.height > 0 {
      SoleClaim(claims, c, Coord(c.top, c.left));
    }
  }

  lemma DisjointMeansNoConflicts(b: Board, claims: seq<Claim>, c: Claim)
    requires BuiltFrom(b, claims) && c in claims
    requires (c.width > 0 && c.height > 0 ==> multiset(claims)[c] == 1) && Disjoint(claims, c)
    ensures forall p :: InClaim(c, p) ==> InBounds(b, p) && Cell(b, p) == [c]
  {
    forall p | InClaim(c, p)
      ensures InBounds(b, p) && Cell(b, p) == [c]
    {
      assert p in Extent(c);
      SoleClaim(claims, c, p);
    }
  }

  /** Every claim sitting alone in a cell fits the board, so `has_no_conflicts` can be asked of it. */
  ghost predicate SolesFit(b: Board)
  {
    forall p :: InBounds(b, p) && |Cell(b, p)| == 1 ==> Fits(b, Cell(b, p)[0])
  }

  lemma BuiltSolesFit(b: Board, claims: seq<Claim>)
    requires BuiltFrom(b, claims)
    ensures SolesFit(b)
  {
    forall p | InBounds(b, p) && |Cell(b, p)| == 1
      ensures Fits(b, Cell(b, p)[0])
    {
      var d := Cell(b, p)[0];
      assert multiset(Covering(claims, p))[d] > 0;
    }
  }

  /** Claim `c` is the only entry of some cell of the board. */
  ghost predicate SitsAlone(b: Board, c: Claim)
  {
    exists p :: InBounds(b, p) && Cell(b, p) == [c]
  }

  /** Claim `c` is the only entry of some cell of row `row`. */
  ghost predicate SitsInRow(b: Board, c: Claim, row: nat)
  {
    row < |b.cells| && exists col: nat :: col < |b.cells[row]| && b.cells[row][col] == [c]
  }

  /**
    The claims can be read off rows `r`, `r + 1`, ... one per row: each sits
    alone in a row strictly below the previous claim's row.
   */
  ghost predicate OnePerRow(b: Board, s: seq<Claim>, r: nat)
    decreases |s|
  {
    |s| == 0 || exists row: nat :: r <= row && SitsInRow(b, s[0], row) && OnePerRow(b, s[1..], row + 1)
  }

  /** Claims read off rows from `r'` on are also read off rows from any earlier `r` on. */
  lemma OnePerRowFrom(b: Board, s: seq<Claim>, r: nat, r': nat)
    requires r <= r' && OnePerRow(b, s, r')
    ensures OnePerRow(b, s, r)
  {
    if |s| > 0 {
      var row: nat :| r' <= row && SitsInRow(b, s[0], row) && OnePerRow(b, s[1..], row + 1);
      assert r <= row;
    }
  }

  /** A claim alone in row `r`, put before claims read off the later rows, gives claims read off rows from `r` on. */
  lemma OnePerRowCons(b: Board, c: Claim, s: seq<Claim>, r: nat)
    requires SitsInRow(b, c, r) && OnePerRow(b, s, r + 1)
    ensures OnePerRow(b, [c] + s, r)
  {
    assert ([c] + s)[0] == c && ([c] + s)[1..] == s;
  }

  /** The claims collected so far are distinct, each sits alone in some cell, and each has no conflicts. */
  ghost predicate Collected(b: Board, acc: seq<Claim>)
  {
    && (forall k :: 0 <= k < |acc| ==> SitsAlone(b, acc[k]))
    && (forall k :: 0 <= k < |acc| ==> Fits(b, acc[k]) && HasNoConflicts(b, acc[k]))
    && (forall k, l :: 0 <= k < l < |acc| ==> acc[k] != acc[l])
  }

  /** Cell `p` holds a single claim, and that claim has no conflicts: the cells the search stops at. */
  ghost predicate Eligible(b: Board, p: Coord)
  {
    InBounds(b, p) && |Cell(b, p)| == 1 && Fits(b, Cell(b, p)[0]) && HasNoConflicts(b, Cell(b, p)[0])
  }

  /** `p` is the first eligible cell of the board in row-major order. */
  ghost predicate FirstEligible(b: Board, p: Coord)
  {
    Eligible(b, p) && forall q :: Eligible(b, q) ==> !Before(q, p)
  }

  /** Claim `c` is the sole entry of the first eligible cell. */
  ghost predicate LeadsWith(b: Board, c: Claim)
  {
    exists p :: FirstEligible(b, p) && Cell(b, p) == [c]
  }

  /**
    The inner loop of `find_non_overlapping_claims` over one row from column
    `j`: at the first cell holding a single conflict-free claim not yet
    collected, the claim is collected and the row is left.
   */
  function ScanRow(b: Board, r: nat, j: nat, acc: seq<Claim>): (acc': seq<Claim>)
    requires r < |b.cells| && j <= |b.cells[r]| && SolesFit(b)
    requires Collected(b, acc)
    ensures Collected(b, acc')
    ensures acc <= acc' && |acc'| <= |acc| + 1
    ensures |acc'| == |acc| + 1 ==> SitsInRow(b, acc'[|acc|], r)
    decreases |b.cells[r]| - j
  {
    if j == |b.cells[r]| then acc
    else
      var cell := b.cells[r][j];
      if |cell| == 1 && (assert InBounds(b, Coord(r, j)); HasNoConflicts(b, cell[0])) && cell[0] !in acc then
        assert Cell(b, Coord(r, j)) == [cell[0]];
        assert b.cells[r][j] == [cell[0]];
        acc + [cell[0]]
      else
        ScanRow(b, r, j + 1, acc)
  }

  /** The outer loop, from row `r` on. */
  function ScanRows(b: Board, r: nat, acc: seq<Claim>): (acc': seq<Claim>)
    requires r <= |b.cells| && SolesFit(b)
    requires Collected(b, acc)
    ensures Collected(b, acc')
    ensures acc <= acc' && |acc'| <= |acc| + (|b.cells| - r)
    ensures OnePerRow(b, acc'[|acc|..], r)
    decreases |b.cells| - r
  {
    if r == |b.cells| then acc
    else
      var mid := ScanRow(b, r, 0, acc);
      var rest := ScanRows(b, r + 1, mid);
      if |mid| == |acc| then
        assert mid == acc;
        OnePerRowFrom(b, rest[|acc|..], r, r + 1);
        rest
      else
        assert rest[|acc|..] == [mid[|acc|]] + rest[|mid|..];
        OnePerRowCons(b, mid[|acc|], rest[|mid|..], r);
        rest
  }

  /**
    Collects distinct claims without conflicts, each read off a cell where
    it is the only entry. Leaving a row after its first find means the
    claims come one per row, in the order of their rows.
   */
  function FindNonOverlappingClaims(b: Board): (found: seq<Claim>)
    requires SolesFit(b)
    ensures forall k :: 0 <= k < |found| ==> SitsAlone(b, found[k])
    ensures forall k :: 0 <= k < |found| ==> Fits(b, found[k]) && HasNoConflicts(b, found[k])
    ensures forall k, l :: 0 <= k < l < |found| ==> found[k] != found[l]
    ensures |found| <= |b.cells|
    ensures OnePerRow(b, found, 0)
    ensures |found| == 0 <==> forall p :: !Eligible(b, p)
    ensures |found| > 0 ==> LeadsWith(b, found[0])
  {
    ScansFromTheFirst(b);
    var found := ScanRows(b, 0, []);
    assert found[0..] == found;
    found
  }

  /** With nothing collected yet, a row scan comes back empty exactly when no cell from column `j` on is eligible. */
  lemma {:induction false} ScanRowEmpty(b: Board, r: nat, j: nat)
    requires r < |b.cells| && j <= |b.cells[r]| && SolesFit(b)
    ensures ScanRow(b, r, j, []) == [] <==> forall col :: j <= col < |b.cells[r]| ==> !Eligible(b, Coord(r, col))
    decreases |b.cells[r]| - j
  {
    if j < |b.cells[r]| {
      assert InBounds(b, Coord(r, j));
      ScanRowEmpty(b, r, j + 1);
    }
  }

  /** Otherwise it collects the claim of the first eligible cell from column `j` on. */
  lemma {:induction false} ScanRowLeads(b: Board, r: nat, j: nat) returns (col: nat)
    requires r < |b.cells| && j <= |b.cells[r]| && SolesFit(b)
    requires ScanRow(b, r, j, []) != []
    ensures j <= col < |b.cells[r]| && Eligible(b, Coord(r, col))
    ensures ScanRow(b, r, j, []) == [b.cells[r][col][0]]
    ensures forall c :: j <= c < col ==> !Eligible(b, Coord(r, c))
    decreases |b.cells[r]| - j
  {
    assert InBounds(b, Coord(r, j));
    if Eligible(b, Coord(r, j)) {
      col := j;
    } else {
      col := ScanRowLeads(b, r, j + 1);
    }
  }

  /** With nothing collected yet, the scan from row `r` comes back empty exactly when no cell from row `r` on is eligible. */
  lemma {:induction false} ScanRowsEmpty(b: Board, r: nat)
    requires r <= |b.cells| && SolesFit(b)
    ensures ScanRows(b, r, []) == [] <==> forall p: Coord :: r <= p.row ==> !Eligible(b, p)
    decreases |b.cells| - r
  {
    if r < |b.cells| {
      ScanRowEmpty(b, r, 0);
      if ScanRow(b, r, 0, []) == [] {
        ScanRowsEmpty(b, r + 1);
        if ScanRows(b, r + 1, []) == [] {
          forall p: Coord | r <= p.row
            ensures !Eligible(b, p)
          {
            if p.row == r && p.col < |b.cells[r]| {
              assert p == Coord(r, p.col);
            }
          }
        }
      } else {
        var col := ScanRowLeads(b, r, 0);
        assert Eligible(b, Coord(r, col));
      }
    }
  }

  /** Otherwise its first claim is the one in the first eligible cell from row `r` on. */
  lemma {:induction false} ScanRowsLeads(b: Board, r: nat) returns (p: Coord)
    requires r <= |b.cells| && SolesFit(b)
    requires ScanRows(b, r, []) != []
    ensures r <= p.row && Eligible(b, p) && Cell(b, p) == [ScanRows(b, r, [])[0]]
    ensures forall q: Coord :: r <= q.row && Eligible(b, q) ==> !Before(q, p)
    decreases |b.cells| - r
  {
    var row := ScanRow(b, r, 0, []);
    if row == [] {
      ScanRowEmpty(b, r, 0);
      p := ScanRowsLeads(b, r + 1);
      forall q: Coord | r <= q.row
        ensures Eligible(b, q) ==> !Before(q, p)
      {
        if q.row == r && q.col < |b.cells[r]| {
          assert q == Coord(r, q.col);
        }
      }
    } else {
      var col := ScanRowLeads(b, r, 0);
      p := Coord(r, col);
      assert row <= ScanRows(b, r, []);
      forall q: Coord | r <= q.row
        ensures Eligible(b, q) ==> !Before(q, p)
      {
        if q.row == r && q.col < col {
          assert q == Coord(r, q.col);
        }
      }
    }
  }

  /** The search finds nothing exactly when no cell is eligible, and otherwise starts with the first eligible cell's claim. */
  lemma ScansFromTheFirst(b: Board)
    requires SolesFit(b)
    ensures ScanRows(b, 0, []) == [] <==> forall p :: !Eligible(b, p)
    ensures ScanRows(b, 0, []) != [] ==> LeadsWith(b, ScanRows(b, 0, [])[0])
  {
    ScanRowsEmpty(b, 0);
    if ScanRows(b, 0, []) != [] {
      var p := ScanRowsLeads(b, 0);
      assert FirstEligible(b, p);
    }
  }

  /**
    A row holding a conflict-free claim alone at column `col` or later makes
    the scan collect one claim, unless that claim was collected before.
   */
  lemma {:induction false} ScanRowFinds(b: Board, r: nat, j: nat, acc: seq<Claim>, col: nat, c: Claim)
    requires r < |b.cells| && j <= col < |b.cells[r]| && SolesFit(b) && Collected(b, acc)
    requires b.cells[r][col] == [c] && Fits(b, c) && HasNoConflicts(b, c)
    ensures |ScanRow(b, r, j, acc)| > 0
    ensures c !in acc ==> |ScanRow(b, r, j, acc)| == |acc| + 1
    decreases col - j
  {
    if j < col {
      var cell := b.cells[r][j];
      assert InBounds(b, Coord(r, j));
      if !(|cell| == 1 && HasNoConflicts(b, cell[0]) && cell[0] !in acc) {
        ScanRowFinds(b, r, j + 1, acc, col, c);
      }
    }
  }

  /**
    A non-empty conflict-free claim whose top row is still to be scanned
    makes the search collect at least one more claim, unless that claim was
    collected before.
   */
  lemma {:induction false} ScanRowsFinds(b: Board, r: nat, acc: seq<Claim>, c: Claim)
    requires r <= c.top < |b.cells| && SolesFit(b) && Collected(b, acc)
    requires c.width > 0 && c.height > 0 && Fits(b, c) && HasNoConflicts(b, c)
    ensures |ScanRows(b, r, acc)| > 0
    ensures c !in acc ==> |ScanRows(b, r, acc)| > |acc|
    decreases |b.cells| - r
  {
    var corner := Coord(c.top, c.left);
    assert InClaim(c, corner);
    SoleOccupant(b, c);
    assert InBounds(b, corner) && Cell(b, corner) == [c];
    var mid := ScanRow(b, r, 0, acc);
    if r < c.top {
      ScanRowsFinds(b, r + 1, mid, c);
      if c !in acc && c in mid {
        assert |mid| > |acc|;
      }
    } else {
      ScanRowFinds(b, r, 0, acc, c.left, c);
    }
  }

  /** If any non-empty claim that fits the board has no conflicts, the search finds at least one claim. */
  lemma FindsSomeClaim(b: Board, c: Claim)
    requires SolesFit(b)
    requires c.width > 0 && c.height > 0 && Fits(b, c) && HasNoConflicts(b, c)
    ensures |FindNonOverlappingClaims(b)| > 0
  {
    assert InClaim(c, Coord(c.top, c.left));
    assert Coord(c.top, c.left) in Extent(c);
    ScanRowsFinds(b, 0, [], c);
  }

  /**
    On a built board, every claim the search returns is a listed claim,
    listed once, that shares no cell with any other listed claim.
   */
  lemma FoundAreListedAndDisjoint(b: Board, claims: seq<Claim>)
    requires BuiltFrom(b, claims)
    ensures SolesFit(b)
    ensures forall c :: c in FindNonOverlappingClaims(b) ==>
              c in claims && multiset(claims)[c] == 1 && Disjoint(claims, c)
  {
    BuiltSolesFit(b, claims);
    var found := FindNonOverlappingClaims(b);
    forall c | c in found
      ensures c in claims && multiset(claims)[c] == 1 && Disjoint(claims, c)
    {
      var k :| 0 <= k < |found| && found[k] == c;
      var p :| InBounds(b, p) && Cell(b, p) == [c];
      assert c in Covering(claims, p);
      assert multiset(claims)[c] == multiset(Covering(claims, p))[c] > 0;
      NoConflictsIffDisjoint(b, claims, c);
    }
  }
  /**
    The worked example: claims `#1 @ 1,3: 4x4`, `#2 @ 3,1: 4x4` and
    `#3 @ 5,5: 2x2`. The first two share a 2 by 2 square, so four cells are
    contested, and the search returns the third claim alone.
   */
  lemma ThreeClaimsScenario(b: Board)
    requires BuiltFrom(b, ScenarioClaims())
    ensures SolesFit(b)
    ensures FindTotalConflicts(b) == 4
    ensures FindNonOverlappingClaims(b) == [Claim(3, 5, 5, 2, 2)]
  {
    var claims := ScenarioClaims();
    var c3 := claims[2];
    ScenarioConflicts(b);
    BuiltSolesFit(b, claims);
    ScenarioOnlyThirdDisjoint();
    NoConflictsIffDisjoint(b, claims, c3);
    FindsSomeClaim(b, c3);
    FoundAreListedAndDisjoint(b, claims);
    var found := FindNonOverlappingClaims(b);
    forall k | 0 <= k < |found|
      ensures found[k] == c3
    {
      assert found[k] in found;
    }
    FirstTwoAgree(found, c3);
  }

  /** In a list whose entries all equal `c`, the first two entries, if any, are equal. */
  lemma FirstTwoAgree(found: seq<Claim>, c: Claim)
    requires forall k :: 0 <= k < |found| ==> found[k] == c
    ensures |found| > 1 ==> found[0] == found[1]
  {
  }

  function ScenarioClaims(): seq<Claim>
  {
    [Claim(1, 1, 3, 4, 4), Claim(2, 3, 1, 4, 4), Claim(3, 5, 5, 2, 2)]
  }

  /** Only the third claim of the example is listed once and disjoint from the others. */
  lemma ScenarioOnlyThirdDisjoint()
    ensures multiset(ScenarioClaims())[ScenarioClaims()[2]] == 1 && Disjoint(ScenarioClaims(), ScenarioClaims()[2])
    ensures forall c :: c in ScenarioClaims() && Disjoint(ScenarioClaims(), c) ==> c == ScenarioClaims()[2]
  {
    var claims := ScenarioClaims();
    assert InClaim(claims[0], Coord(3, 3)) && InClaim(claims[1], Coord(3, 3));
  }

  /** The claims of three covering one cell, in order. */
  lemma CoveringOfThree(claims: seq<Claim>, p: Coord)
    requires |claims| == 3
    ensures Covering(claims, p) == (if InClaim(claims[0], p) then [claims[0]] else [])
                                 + (if InClaim(claims[1], p) then [claims[1]] else [])
                                 + (if InClaim(claims[2], p) then [claims[2]] else [])
  {
    var one, two := claims[..1], claims[..2];
    assert two[..1] == one && one[..0] == [];
    assert Covering(one, p) == if InClaim(claims[0], p) then [claims[0]] else [];
    assert Covering(two, p) == Covering(one, p) + if InClaim(claims[1], p) then [claims[1]] else [];
  }

  /** In the example, a cell is covered twice exactly when it lies in rows 3-4, columns 3-4. */
  lemma ScenarioCoveredTwice(p: Coord)
    ensures |Covering(ScenarioClaims(), p)| > 1 <==> 3 <= p.row <= 4 && 3 <= p.col <= 4
  {
    CoveringOfThree(ScenarioClaims(), p);
  }

  /** On the example's board, the cells covered twice are those of rows 3-4, columns 3-4. */
  lemma ScenarioCell(b: Board, p: Coord)
    requires BuiltFrom(b, ScenarioClaims())
    ensures p in CoveredTwice(b, ScenarioClaims()) <==> 3 <= p.row <= 4 && 3 <= p.col <= 4
  {
    var claims := ScenarioClaims();
    ScenarioCoveredTwice(p);
    if 3 <= p.row <= 4 && 3 <= p.col <= 4 {
      assert claims[0] in claims && InClaim(claims[0], p);
      assert p in Extent(claims[0]);
    }
  }

  /** The contested cells of the worked example are the four cells of rows 3-4, columns 3-4. */
  lemma ScenarioConflicts(b: Board)
    requires BuiltFrom(b, ScenarioClaims())
    ensures FindTotalConflicts(b) == 4
  {
    BuiltConflicts(b, ScenarioClaims());
    ScenarioSquare(b);
    SquareSize();
  }

  lemma SquareSize()
    ensures |{Coord(3, 3), Coord(3, 4), Coord(4, 3), Coord(4, 4)}| == 4
  {
  }

  lemma ScenarioSquare(b: Board)
    requires BuiltFrom(b, ScenarioClaims())
    ensures CoveredTwice(b, ScenarioClaims()) == {Coord(3, 3), Coord(3, 4), Coord(4, 3), Coord(4, 4)}
  {
    var square := {Coord(3, 3), Coord(3, 4), Coord(4, 3), Coord(4, 4)};
    forall p
      ensures p in CoveredTwice(b, ScenarioClaims()) <==> p in square
    {
      ScenarioCell(b, p);
      if 3 <= p.row <= 4 && 3 <= p.col <= 4 {
        assert p == Coord(p.row, p.col);
      }
    }
  }
}
