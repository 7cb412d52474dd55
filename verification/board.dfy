/**
 The candidate board (solution.py's `values` dict), the assignment log, the
 `assign_value` primitive, board construction from a grid string, and the
 predicates that say what a solved board is.
 */
module Board {
  import opened Topology
  import opened Candidates

  datatype Option<+T> = None | Some(value: T)

  /**
   The candidate string of every box, indexed by box. The dict of solution.py is
   built by pairing `boxes` with the parsed cells and copied before each branch, so its
   keys are always in row-major order, which is the index order here.
   */
  type Board = v: seq<string> | |v| == 81 witness seq(81, _ => Digits)

  /** A board together with the assignment log, solution.py's global `assignments` list. */
  datatype State = State(values: Board, log: seq<Board>)

  /**
   `assign_value(values, box, value)`: an unchanged value is a no-op; otherwise
   the box is overwritten, and a snapshot of the whole board is appended to the
   log when the new value is a single candidate.
   */
  function AssignValue(st: State, box: Box, value: string): (r: State)
    ensures r.values[box] == value
    ensures forall b: Box :: b != box ==> r.values[b] == st.values[b]
    ensures st.values[box] == value ==> r == st
    ensures st.log <= r.log
    ensures |r.log| == |st.log| + (if st.values[box] != value && |value| == 1 then 1 else 0)
    ensures |r.log| > |st.log| ==> r.log[|st.log|] == r.values
  {
    if st.values[box] == value then st
    else
      var values := st.values[box := value];
      State(values, if |value| == 1 then st.log + [values] else st.log)
  }

  /** Every box of `w` keeps only candidates it had in `v`. */
  predicate Refines(w: Board, v: Board)
  {
    forall b :: 0 <= b < 81 ==> Within(w[b], v[b])
  }

  lemma RefinesTransitive(x: Board, y: Board, z: Board)
    requires Refines(x, y) && Refines(y, z)
    ensures Refines(x, z)
  {
    forall b | 0 <= b < 81
      ensures Within(x[b], z[b])
    {
      WithinTransitive(x[b], y[b], z[b]);
    }
  }

  /** Writing into a box one of its own candidates refines the board. */
  lemma AssignCandidateRefines(st: State, box: Box, c: char)
    requires c in st.values[box]
    ensures Refines(AssignValue(st, box, [c]).values, st.values)
  {
  }

  /** Every candidate on the board is one of the digits "1" to "9". */
  predicate DigitsOnly(v: Board)
  {
    forall b, c :: 0 <= b < 81 && c in v[b] ==> c in Digits
  }

  /** Deleting candidates keeps a board made of digits. */
  lemma RefinesDigitsOnly(w: Board, v: Board)
    requires Refines(w, v) && DigitsOnly(v)
    ensures DigitsOnly(w)
  {
    forall b, c | 0 <= b < 81 && c in w[b]
      ensures c in Digits
    {
      assert Within(w[b], v[b]);
    }
  }

  predicate HasEmpty(v: Board)
  {
    exists b :: 0 <= b < 81 && |v[b]| == 0
  }

  /** Every box holds exactly one candidate: the test `search` uses to return the board. */
  predicate AllSolved(v: Board)
  {
    forall b :: 0 <= b < 81 ==> |v[b]| == 1
  }

  /** The number of boxes with exactly one candidate. */
  function SolvedCount(v: seq<string>): (n: nat)
    ensures n <= |v|
    ensures n == |v| <==> forall i :: 0 <= i < |v| ==> |v[i]| == 1
  {
    if v == [] then 0
    else
      assert forall i :: 0 < i < |v| ==> v[i] == v[1..][i - 1];
      (if |v[0]| == 1 then 1 else 0) + SolvedCount(v[1..])
  }

  /** A board whose solved boxes all stay solved has at least as many solved boxes. */
  lemma {:induction false} SolvedCountMonotone(w: seq<string>, v: seq<string>)
    requires |w| == |v|
    requires forall i :: 0 <= i < |v| && |v[i]| == 1 ==> |w[i]| == 1
    ensures SolvedCount(v) <= SolvedCount(w)
  {
    if v != [] {
      SolvedCountMonotone(w[1..], v[1..]);
    }
  }

  /** Refining a board with no empty box keeps every solved box solved. */
  lemma RefinesKeepsSolved(w: Board, v: Board)
    requires Refines(w, v) && !HasEmpty(w)
    ensures forall b :: 0 <= b < 81 && |v[b]| == 1 ==> w[b] == v[b]
    ensures SolvedCount(v) <= SolvedCount(w)
  {
    forall b | 0 <= b < 81 && |v[b]| == 1
      ensures w[b] == v[b]
    {
      assert v[b] == [v[b][0]];
      WithinSingleton(w[b], v[b][0]);
    }
    SolvedCountMonotone(w, v);
  }

  /** The total number of candidates on a board; search makes it drop at every branch. */
  function Total(v: seq<string>): nat
  {
    if v == [] then 0 else |v[0]| + Total(v[1..])
  }

  lemma {:induction false} TotalShrinks(w: seq<string>, v: seq<string>)
    requires |w| == |v|
    requires forall i :: 0 <= i < |v| ==> |w[i]| <= |v[i]|
    ensures Total(w) <= Total(v)
  {
    if v != [] {
      TotalShrinks(w[1..], v[1..]);
    }
  }

  lemma RefinesTotal(w: Board, v: Board)
    requires Refines(w, v)
    ensures Total(w) <= Total(v)
  {
    forall i | 0 <= i < 81
      ensures |w[i]| <= |v[i]|
    {
    }
    TotalShrinks(w, v);
  }

  lemma {:induction false} TotalUpdate(v: seq<string>, i: int, s: string)
    requires 0 <= i < |v|
    ensures Total(v[i := s]) + |v[i]| == Total(v) + |s|
  {
    if i > 0 {
      TotalUpdate(v[1..], i - 1, s);
      assert v[i := s][1..] == v[1..][i - 1 := s];
    } else {
      assert v[i := s][1..] == v[1..];
    }
  }

  /** What `grid_values` appends for one character of the grid: a digit, all digits for '.', nothing otherwise. */
  function CellOf(c: char): seq<string>
  {
    if c in Digits then [[c]]
    else if c == '.' then [Digits]
    else []
  }

  /** A box as the grid string describes it: a given digit, or every digit. */
  predicate IsGridCell(s: string)
  {
    (|s| == 1 && s[0] in Digits) || s == Digits
  }

  /** The `chars` list `grid_values` builds: one entry per digit or '.', every other character dropped. */
  function GridCells(grid: string): (cells: seq<string>)
    ensures |cells| <= |grid|
    ensures forall i :: 0 <= i < |cells| ==> IsGridCell(cells[i])
  {
    if grid == [] then []
    else CellOf(grid[0]) + GridCells(grid[1..])
  }

  /** `grid_values(grid)`; `None` when the kept characters are not exactly 81 and its assertion fails. */
  function GridValues(grid: string): (r: Option<Board>)
    ensures r.Some? <==> |GridCells(grid)| == 81
    ensures r.Some? ==> forall b :: 0 <= b < 81 ==> IsGridCell(r.value[b])
  {
    var cells := GridCells(grid);
    if |cells| == 81 then var v: Board := cells; Some(v) else None
  }

  /** Writes a board of givens and blanks back as a grid string: the digit, or '.' for a blank. */
  function GridText(v: seq<string>): string
    requires forall i :: 0 <= i < |v| ==> IsGridCell(v[i])
  {
    if v == [] then ""
    else
      assert IsGridCell(v[0]);
      [if v[0] == Digits then '.' else v[0][0]] + GridText(v[1..])
  }

  lemma {:induction false} GridCellsAppend(a: string, b: string)
    ensures GridCells(a + b) == GridCells(a) + GridCells(b)
  {
    if a != [] {
      assert (a + b)[1..] == a[1..] + b;
      GridCellsAppend(a[1..], b);
    } else {
      assert a + b == b;
    }
  }

  /** Reading back a written board gives the same board. */
  lemma {:induction false} GridTextRoundTrip(v: seq<string>)
    requires forall i :: 0 <= i < |v| ==> IsGridCell(v[i])
    ensures GridCells(GridText(v)) == v
  {
    if v != [] {
      GridTextRoundTrip(v[1..]);
      var c := if v[0] == Digits then '.' else v[0][0];
      assert GridText(v) == [c] + GridText(v[1..]);
      GridCellsAppend([c], GridText(v[1..]));
      assert [c][1..] == [];
      if v[0] != Digits {
        assert v[0] == [c];
      } else {
        assert '.' !in Digits;
      }
    }
  }

  /** A board read from a grid holds only digits. */
  lemma GridValuesDigits(grid: string)
    requires GridValues(grid).Some?
    ensures DigitsOnly(GridValues(grid).value)
  {
    var v := GridValues(grid).value;
    forall b, c | 0 <= b < 81 && c in v[b]
      ensures c in Digits
    {
      assert IsGridCell(v[b]);
      if |v[b]| == 1 {
        assert v[b] == [v[b][0]];
      }
    }
  }

  lemma GridValuesRoundTrip(v: Board)
    requires forall b :: 0 <= b < 81 ==> IsGridCell(v[b])
    ensures GridValues(GridText(v)) == Some(v)
  {
    GridTextRoundTrip(v);
  }

  /** Characters other than the digits and '.' are dropped wherever they occur. */
  lemma GridValuesDropsOthers(a: string, c: char, b: string)
    requires c !in Digits && c != '.'
    ensures GridValues(a + [c] + b) == GridValues(a + b)
  {
    assert GridCells([c]) == CellOf(c) + GridCells([]);
    GridCellsAppend(a + [c], b);
    GridCellsAppend(a, [c]);
    GridCellsAppend(a, b);
    assert GridCells(a + [c]) == GridCells(a);
    assert GridCells(a + [c] + b) == GridCells(a + b);
  }

  /**
   A complete grid of digits with no digit repeated among peers, that is,
   within any row, column, square or diagonal.
   */
  predicate ValidSolution(sol: seq<char>)
  {
    && |sol| == 81
    && (forall b :: 0 <= b < 81 ==> sol[b] in Digits)
    && (forall a: Box, b: Box :: IsPeer(a, b) ==> sol[a] != sol[b])
  }

  /** The complete grid `sol` is still allowed by every box of `v`. */
  predicate Consistent(sol: seq<char>, v: Board)
  {
    |sol| == 81 && forall b :: 0 <= b < 81 ==> sol[b] in v[b]
  }

  function UnitChars(sol: seq<char>, u: UnitId): seq<char>
    requires |sol| == 81
  {
    seq(9, k requires 0 <= k < 9 => sol[Unit(u)[k]])
  }

  /** In a valid solution every unit holds every digit. */
  lemma EveryDigitInEveryUnit(sol: seq<char>, u: UnitId, d: char)
    requires ValidSolution(sol) && d in Digits
    ensures exists k :: 0 <= k < 9 && sol[Unit(u)[k]] == d
  {
    var s := UnitChars(sol, u);
    forall i, j | 0 <= i < j < 9
      ensures s[i] != s[j]
    {
      UnitMatesArePeers(u, Unit(u)[i], Unit(u)[j]);
    }
    DigitsDistinct();
    forall i | 0 <= i < 9
      ensures s[i] in (set c | c in Digits)
    {
      assert sol[Unit(u)[i]] in Digits;
    }
    Pigeonhole(s, set c | c in Digits);
    assert d in s;
  }

  /** The singleton strings "1" .. "9". */
  function DigitStrings(): set<string>
  {
    set c | c in Digits :: [c]
  }

  lemma DigitStringsCard()
    ensures |DigitStrings()| == 9
  {
    var s := seq(9, i requires 0 <= i < 9 => [Digits[i]]);
    DigitsDistinct();
    assert Distinct(s);
    DistinctCard(s);
    assert (set x | x in s) == DigitStrings() by {
      forall x | x in DigitStrings()
        ensures x in s
      {
        var c :| c in Digits && x == [c];
        var i :| 0 <= i < 9 && Digits[i] == c;
        assert s[i] == x;
      }
    }
  }

  function UnitValues(v: Board, u: UnitId): seq<string>
  {
    seq(9, k requires 0 <= k < 9 => v[Unit(u)[k]])
  }

  /**
   The test harness's `solved` check: every unit's set of values is exactly
   the nine digits. The harness refers to `solution.digits`, which the solver
   module does not define; the digits "1" to "9" are what it means.
   */
  predicate IsSolved(v: Board)
  {
    forall u :: 0 <= u < 29 ==> (set x | x in UnitValues(v, u)) == DigitStrings()
  }

  /** The characters of a board whose boxes all hold one candidate. */
  function Chars(v: Board): (sol: seq<char>)
    requires AllSolved(v)
    ensures |sol| == 81 && forall b :: 0 <= b < 81 ==> v[b] == [sol[b]]
  {
    seq(81, b requires 0 <= b < 81 => v[b][0])
  }

  /** The harness's check holds exactly when the board's digits form a valid solution. */
  lemma SolvedIffValid(v: Board)
    requires AllSolved(v)
    ensures IsSolved(v) <==> ValidSolution(Chars(v))
  {
    if ValidSolution(Chars(v)) {
      ValidIsSolved(v);
    }
    if IsSolved(v) {
      SolvedIsValid(v);
    }
  }

  lemma ValidIsSolved(v: Board)
    requires AllSolved(v) && ValidSolution(Chars(v))
    ensures IsSolved(v)
  {
    forall u | 0 <= u < 29
      ensures (set x | x in UnitValues(v, u)) == DigitStrings()
    {
      UnitSolved(v, u);
    }
  }

  /** One unit of a board whose digits form a valid solution holds each of the nine digits once. */
  lemma UnitSolved(v: Board, u: UnitId)
    requires AllSolved(v) && ValidSolution(Chars(v))
    ensures (set x | x in UnitValues(v, u)) == DigitStrings()
  {
    var s := UnitValues(v, u);
    DigitStringsCard();
    UnitValuesDistinct(v, u);
    UnitValuesDigits(v, u);
    Pigeonhole(s, DigitStrings());
  }

  lemma UnitValuesDistinct(v: Board, u: UnitId)
    requires AllSolved(v) && ValidSolution(Chars(v))
    ensures Distinct(UnitValues(v, u))
  {
    var s := UnitValues(v, u);
    forall i, j | 0 <= i < j < 9
      ensures s[i] != s[j]
    {
      UnitMatesDiffer(v, u, i, j);
    }
  }

  lemma UnitMatesDiffer(v: Board, u: UnitId, i: int, j: int)
    requires AllSolved(v) && ValidSolution(Chars(v))
    requires 0 <= i < j < 9
    ensures UnitValues(v, u)[i] != UnitValues(v, u)[j]
  {
    var sol, a, b := Chars(v), Unit(u)[i], Unit(u)[j];
    UnitBoxInjective(u, i, j);
    assert a in Unit(u) && b in Unit(u) && a != b;
    UnitMatesArePeers(u, a, b);
    assert sol[a] != sol[b];
    assert v[a] == [sol[a]] && v[b] == [sol[b]];
  }

  lemma UnitValuesDigits(v: Board, u: UnitId)
    requires AllSolved(v) && ValidSolution(Chars(v))
    ensures forall i :: 0 <= i < 9 ==> UnitValues(v, u)[i] in DigitStrings()
  {
    var sol := Chars(v);
    forall i | 0 <= i < 9
      ensures UnitValues(v, u)[i] in DigitStrings()
    {
      var b := Unit(u)[i];
      assert UnitValues(v, u)[i] == [sol[b]] && sol[b] in Digits;
    }
  }

  lemma SolvedIsValid(v: Board)
    requires AllSolved(v) && IsSolved(v)
    ensures ValidSolution(Chars(v))
  {
    var sol := Chars(v);
    DigitStringsCard();
    forall b | 0 <= b < 81
      ensures sol[b] in Digits
    {
      var row := RowOf(b);
      UnitMembership(b, row);
      var k :| 0 <= k < 9 && Unit(row)[k] == b;
      assert UnitValues(v, row)[k] == v[b];
      assert v[b] in DigitStrings();
    }
    forall a: Box, b: Box | IsPeer(a, b)
      ensures sol[a] != sol[b]
    {
      var u :| 0 <= u < 29 && InUnit(a, u) && InUnit(b, u);
      UnitMembership(a, u);
      UnitMembership(b, u);
      var i :| 0 <= i < 9 && Unit(u)[i] == a;
      var j :| 0 <= j < 9 && Unit(u)[j] == b;
      if sol[a] == sol[b] {
        var s := UnitValues(v, u);
        assert s[i] == s[j];
        if i < j { RepeatedCard(s, i, j); } else { RepeatedCard(s, j, i); }
      }
    }
  }
}
