/**
 `search` and `solve`: reduce the board, then branch on the unsolved box with
 the fewest candidates, trying its candidates in string order on copies of
 the board.
 */
module Search {
  import opened Topology
  import opened Candidates
  import opened Board
  import opened Propagation

  /**
   What `search` returns: a board (`Solved`), `False` when `reduce_puzzle`
   finds a contradiction (`Failed`), or `None` when every branch fails
   (`Exhausted`). The failed outcomes carry the assignment log, which
   solution.py keeps in a global list.
   */
  datatype SearchResult = Solved(st: State) | Failed(log: seq<Board>) | Exhausted(log: seq<Board>)
  {
    /** The assignment log as it stands when `search` returns. */
    function Log(): seq<Board>
    {
      if Solved? then st.log else log
    }
  }

  /**
   `b` comes before `c` in the order `search` minimises over when it picks
   the branch box: fewer candidates first, then the smaller box name.
   */
  predicate Before(v: Board, b: Box, c: Box)
  {
    |v[b]| < |v[c]| || (|v[b]| == |v[c]| && StrLess(Name(b), Name(c)))
  }

  /** The same order on positions below `n`: fewer candidates first, then the earlier box. */
  predicate BestBelow(v: Board, b: Box, n: int)
  {
    b < n && |v[b]| > 1
    && forall c: Box :: c < n && |v[c]| > 1 && c != b ==> |v[b]| < |v[c]| || (|v[b]| == |v[c]| && b < c)
  }

  /** The scan behind `min(...)` from position `i` on; `best` is the best unsolved box before `i`, if any. */
  function MinFrom(v: Board, i: nat, best: Option<Box>): Option<Box>
    decreases 81 - i, v
  {
    if i >= 81 then best
    else
      var take := |v[i]| > 1 && (best.None? || |v[i]| < |v[best.value]|);
      MinFrom(v, i + 1, if take then Some(i as Box) else best)
  }

  lemma {:induction false} MinFromBest(v: Board, i: nat, best: Option<Box>)
    requires i <= 81
    requires best.None? ==> forall c: Box :: c < i ==> |v[c]| <= 1
    requires best.Some? ==> BestBelow(v, best.value, i)
    decreases 81 - i
    ensures MinFrom(v, i, best).None? ==> forall c: Box :: |v[c]| <= 1
    ensures MinFrom(v, i, best).Some? ==> BestBelow(v, MinFrom(v, i, best).value, 81)
  {
    if i < 81 {
      var take := |v[i]| > 1 && (best.None? || |v[i]| < |v[best.value]|);
      MinFromBest(v, i + 1, if take then Some(i as Box) else best);
    }
  }

  /**
   The branch box of `search`: the unsolved box with the fewest candidates,
   ties going to the smallest name. `min` raises on an empty sequence in
   solution.py, so a box with more than one candidate must exist.
   */
  function MinRemaining(v: Board): (r: Box)
    requires exists b: Box :: |v[b]| > 1
    ensures |v[r]| > 1
    ensures forall c: Box :: |v[c]| > 1 && c != r ==> Before(v, r, c)
  {
    MinFromBest(v, 0, None);
    var r := MinFrom(v, 0, None).value;
    forall c: Box | |v[c]| > 1 && c != r
      ensures Before(v, r, c)
    {
      NameOrder(r, c);
    }
    r
  }

  /** Fixing an unsolved box to one candidate lowers the total number of candidates. */
  lemma BranchShrinks(v: Board, box: Box, c: char)
    requires |v[box]| > 1
    ensures Total(v[box := [c]]) < Total(v)
  {
    TotalUpdate(v, box, [c]);
  }

  /** `search(values)`. */
  function Search(st: State): (r: SearchResult)
    decreases Total(st.values), 1
    ensures r.Failed? <==> ReducePuzzle(st).Contradiction?
    ensures r.Solved? ==> AllSolved(r.st.values)
    ensures st.log <= r.Log()
  {
    match ReducePuzzle(st)
    case Contradiction(s) => Failed(s.log)
    case Reduced(s) =>
      if AllSolved(s.values) then Solved(s)
      else
        var box := MinRemaining(s.values);
        RefinesTotal(s.values, st.values);
        Branches(s.values, box, 0, s.log)
  }

  /**
   The branch loop of `search` over the candidates of `box`, from the `i`-th on: each
   branch assigns the candidate on a copy of `values` and searches it; the
   first solved branch is returned, and the loop falls off its end with
   `None`. The log of a failed branch carries over to the next one.
   */
  function Branches(v: Board, box: Box, i: nat, log: seq<Board>): (r: SearchResult)
    requires |v[box]| > 1
    decreases Total(v), 0, |v[box]| - i
    ensures !r.Failed?
    ensures r.Solved? ==> AllSolved(r.st.values)
    ensures log <= r.Log()
  {
    if i >= |v[box]| then Exhausted(log)
    else
      var option := AssignValue(State(v, log), box, [v[box][i]]);
      BranchShrinks(v, box, v[box][i]);
      var r := Search(option);
      if r.Solved? then r else Branches(v, box, i + 1, r.Log())
  }

  /** `solve(grid)`: `None` when the grid does not describe 81 boxes (the failing assertion in `grid_values`). */
  function Solve(grid: string, log: seq<Board>): (r: Option<SearchResult>)
    ensures r.Some? <==> |GridCells(grid)| == 81
  {
    match GridValues(grid)
    case None => None
    case Some(v) => Some(Search(State(v, log)))
  }

  // A returned board is a valid solution that keeps the givens.

  lemma {:induction false} SearchSolvedRefines(st: State)
    requires Search(st).Solved?
    decreases Total(st.values), 1
    ensures Refines(Search(st).st.values, st.values)
  {
    var s := ReducePuzzle(st).st;
    if !AllSolved(s.values) {
      var box := MinRemaining(s.values);
      RefinesTotal(s.values, st.values);
      BranchesSolvedRefines(s.values, box, 0, s.log);
      RefinesTransitive(Search(st).st.values, s.values, st.values);
    }
  }

  lemma {:induction false} BranchesSolvedRefines(v: Board, box: Box, i: nat, log: seq<Board>)
    requires |v[box]| > 1 && Branches(v, box, i, log).Solved?
    decreases Total(v), 0, |v[box]| - i
    ensures Refines(Branches(v, box, i, log).st.values, v)
  {
    if i < |v[box]| {
      var option := AssignValue(State(v, log), box, [v[box][i]]);
      BranchShrinks(v, box, v[box][i]);
      var r := Search(option);
      if r.Solved? {
        SearchSolvedRefines(option);
        AssignCandidateRefines(State(v, log), box, v[box][i]);
        RefinesTransitive(r.st.values, option.values, v);
      } else {
        BranchesSolvedRefines(v, box, i + 1, r.Log());
      }
    }
  }

  /** Every given of a board of digits survives into the returned board, which is a valid solution. */
  lemma {:induction false} SearchSolvedValid(st: State)
    requires DigitsOnly(st.values) && Search(st).Solved?
    decreases Total(st.values), 1
    ensures ValidSolution(Chars(Search(st).st.values))
    ensures Consistent(Chars(Search(st).st.values), st.values)
    ensures forall b :: 0 <= b < 81 && |st.values[b]| == 1 ==> Search(st).st.values[b] == st.values[b]
  {
    var w := Search(st).st.values;
    SearchSolvedRefines(st);
    var s := ReducePuzzle(st).st;
    if AllSolved(s.values) {
      ReduceSolvedValid(st);
    } else {
      var box := MinRemaining(s.values);
      RefinesTotal(s.values, st.values);
      RefinesDigitsOnly(s.values, st.values);
      BranchesSolvedValid(s.values, box, 0, s.log);
    }
    forall b | 0 <= b < 81
      ensures Chars(w)[b] in st.values[b]
    {
      assert Within(w[b], st.values[b]);
    }
    assert !HasEmpty(w);
    RefinesKeepsSolved(w, st.values);
  }

  lemma {:induction false} BranchesSolvedValid(v: Board, box: Box, i: nat, log: seq<Board>)
    requires |v[box]| > 1 && DigitsOnly(v) && Branches(v, box, i, log).Solved?
    decreases Total(v), 0, |v[box]| - i
    ensures ValidSolution(Chars(Branches(v, box, i, log).st.values))
  {
    if i < |v[box]| {
      var option := AssignValue(State(v, log), box, [v[box][i]]);
      BranchShrinks(v, box, v[box][i]);
      var r := Search(option);
      if r.Solved? {
        AssignCandidateRefines(State(v, log), box, v[box][i]);
        RefinesDigitsOnly(option.values, v);
        SearchSolvedValid(option);
      } else {
        BranchesSolvedValid(v, box, i + 1, r.Log());
      }
    }
  }

  /** Fixing a box to the digit a solution places there keeps the solution consistent with the board. */
  lemma AssignSolutionDigit(st: State, box: Box, sol: seq<char>)
    requires Consistent(sol, st.values) && |sol| == 81
    ensures Consistent(sol, AssignValue(st, box, [sol[box]]).values)
  {
  }

  // Completeness: if the board allows a valid solution, search finds one.

  lemma {:induction false} SearchComplete(st: State, sol: seq<char>)
    requires ValidSolution(sol) && Consistent(sol, st.values)
    decreases Total(st.values), 1
    ensures Search(st).Solved?
  {
    ReduceSound(st, sol);
    var s := ReducePuzzle(st).st;
    if !AllSolved(s.values) {
      var box := MinRemaining(s.values);
      RefinesTotal(s.values, st.values);
      var k :| 0 <= k < |s.values[box]| && s.values[box][k] == sol[box];
      BranchesComplete(s.values, box, 0, s.log, sol, k);
    }
  }

  lemma {:induction false} BranchesComplete(v: Board, box: Box, i: nat, log: seq<Board>, sol: seq<char>, k: int)
    requires |v[box]| > 1 && ValidSolution(sol) && Consistent(sol, v)
    requires i <= k < |v[box]| && v[box][k] == sol[box]
    decreases Total(v), 0, |v[box]| - i
    ensures Branches(v, box, i, log).Solved?
  {
    var option := AssignValue(State(v, log), box, [v[box][i]]);
    BranchShrinks(v, box, v[box][i]);
    var r := Search(option);
    if i == k {
      SolutionBranch(v, box, log, sol);
    } else if !r.Solved? {
      BranchesComplete(v, box, i + 1, r.Log(), sol, k);
    }
  }

  /** The branch that fixes the box to the solution's digit returns a board. */
  lemma {:induction false} SolutionBranch(v: Board, box: Box, log: seq<Board>, sol: seq<char>)
    requires |v[box]| > 1 && ValidSolution(sol) && Consistent(sol, v)
    decreases Total(v), 0, 0
    ensures Search(AssignValue(State(v, log), box, [sol[box]])).Solved?
  {
    BranchShrinks(v, box, sol[box]);
    AssignSolutionDigit(State(v, log), box, sol);
    SearchComplete(AssignValue(State(v, log), box, [sol[box]]), sol);
  }

  /**
   `solve` on a well-formed grid: the answer is a board, never `False` or
   `None`, exactly when the grid admits a valid solution; that board
   satisfies the harness's `solved` check and keeps every given.
   */
  lemma SolveCorrect(grid: string, log: seq<Board>)
    requires |GridCells(grid)| == 81
    ensures Solve(grid, log).value.Solved? <==> exists sol :: ValidSolution(sol) && Consistent(sol, GridValues(grid).value)
    ensures Solve(grid, log).value.Solved? ==>
      var w := Solve(grid, log).value.st.values;
      IsSolved(w) && forall b :: 0 <= b < 81 && GridCells(grid)[b] != Digits ==> w[b] == GridCells(grid)[b]
  {
    var v := GridValues(grid).value;
    var st := State(v, log);
    GridValuesDigits(grid);
    if exists sol :: ValidSolution(sol) && Consistent(sol, v) {
      var sol :| ValidSolution(sol) && Consistent(sol, v);
      SearchComplete(st, sol);
    }
    if Search(st).Solved? {
      var w := Search(st).st.values;
      SearchSolvedValid(st);
      SearchSolvedRefines(st);
      SolvedIffValid(w);
      forall b | 0 <= b < 81 && GridCells(grid)[b] != Digits
        ensures w[b] == GridCells(grid)[b]
      {
        assert IsGridCell(v[b]);
      }
    }
  }
}
