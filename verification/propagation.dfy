/**
 `reduce_puzzle`: apply the three rules in turn until a pass solves no new
 box, or stop with a contradiction as soon as a pass leaves a box empty.
 */
module Propagation {
  import opened Topology
  import opened Candidates
  import opened Board
  import opened Elimination
  import opened OnlyChoice
  import opened NakedTwins

  /**
   `reduce_puzzle` returns `False` for a contradiction and the (mutated) dict
   otherwise; both outcomes carry the board and the assignment log here,
   because the log is global in solution.py and keeps what the failed pass wrote.
   */
  datatype Reduction = Contradiction(st: State) | Reduced(st: State)

  /** One pass of the loop: `eliminate`, then `only_choice`, then `naked_twins`. */
  function Pass(st: State): (r: State)
    ensures Refines(r.values, st.values)
    ensures st.log <= r.log
  {
    var a := Eliminate(st);
    var b := OnlyChoice.OnlyChoice(a);
    OnlyChoiceChosen(a);
    var c := NakedTwins.NakedTwins(b);
    RefinesTransitive(b.values, a.values, st.values);
    RefinesTransitive(c.values, b.values, st.values);
    c
  }

  /** Without an empty box, a pass keeps every solved box solved: the loop's measure never goes back. */
  lemma PassProgress(st: State)
    requires !HasEmpty(Pass(st).values)
    ensures SolvedCount(st.values) <= SolvedCount(Pass(st).values)
  {
    RefinesKeepsSolved(Pass(st).values, st.values);
  }

  /**
   `reduce_puzzle(values)`. The loop ends because, while no box is empty, the
   number of solved boxes never drops, rises on every pass that does not
   stall, and is at most 81.
   */
  function ReducePuzzle(st: State): (r: Reduction)
    decreases 81 - SolvedCount(st.values)
    ensures Refines(r.st.values, st.values)
    ensures r.Contradiction? <==> HasEmpty(r.st.values)
    ensures st.log <= r.st.log
  {
    var next := Pass(st);
    if HasEmpty(next.values) then Contradiction(next)
    else if SolvedCount(next.values) == SolvedCount(st.values) then Reduced(next)
    else
      PassProgress(st);
      var r := ReducePuzzle(next);
      RefinesTransitive(r.st.values, next.values, st.values);
      r
  }

  /** A reduced board is the result of a pass that solved no new box. */
  lemma {:induction false} ReduceStalls(st: State) returns (last: State)
    requires ReducePuzzle(st).Reduced?
    decreases 81 - SolvedCount(st.values)
    ensures Pass(last) == ReducePuzzle(st).st
    ensures SolvedCount(last.values) == SolvedCount(Pass(last).values)
    ensures Refines(last.values, st.values)
  {
    var next := Pass(st);
    if SolvedCount(next.values) == SolvedCount(st.values) {
      last := st;
    } else {
      PassProgress(st);
      last := ReduceStalls(next);
      RefinesTransitive(last.values, next.values, st.values);
    }
  }

  /** A pass never rules out a valid solution the board allows. */
  lemma PassSound(st: State, sol: seq<char>)
    requires ValidSolution(sol) && Consistent(sol, st.values)
    ensures Consistent(sol, Pass(st).values)
  {
    var a := Eliminate(st);
    EliminateSound(st, sol);
    OnlyChoiceSound(a, sol);
    NakedTwinsSound(OnlyChoice.OnlyChoice(a), sol);
  }

  /** With a valid solution the board allows, `reduce_puzzle` never reports a contradiction and keeps that solution allowed. */
  lemma {:induction false} ReduceSound(st: State, sol: seq<char>)
    requires ValidSolution(sol) && Consistent(sol, st.values)
    decreases 81 - SolvedCount(st.values)
    ensures ReducePuzzle(st).Reduced?
    ensures Consistent(sol, ReducePuzzle(st).st.values)
  {
    var next := Pass(st);
    PassSound(st, sol);
    assert !HasEmpty(next.values) by {
      forall b | 0 <= b < 81
        ensures |next.values[b]| != 0
      {
        assert sol[b] in next.values[b];
      }
    }
    if SolvedCount(next.values) != SolvedCount(st.values) {
      PassProgress(st);
      ReduceSound(next, sol);
    }
  }

  /**
   A pass over a fully solved board that leaves no box empty changes nothing,
   and the board's digits then form a valid solution: `eliminate` would have
   emptied one of two peers holding the same digit.
   */
  lemma PassOnSolved(st: State)
    requires AllSolved(st.values) && DigitsOnly(st.values) && !HasEmpty(Pass(st).values)
    ensures Pass(st).values == st.values
    ensures ValidSolution(Chars(st.values))
  {
    var v := st.values;
    var a := Eliminate(st).values;
    var w := Pass(st).values;
    OnlyChoiceChosen(Eliminate(st));
    RefinesTransitive(OnlyChoice.OnlyChoice(Eliminate(st)).values, a, v);
    assert Refines(w, a);
    assert !HasEmpty(a) by {
      forall b | 0 <= b < 81
        ensures |a[b]| != 0
      {
        assert Within(w[b], a[b]);
      }
    }
    RefinesKeepsSolved(a, v);
    RefinesKeepsSolved(w, v);
    assert a == v && w == v;
    var sol := Chars(v);
    forall x: Box, y: Box | IsPeer(x, y)
      ensures sol[x] != sol[y]
    {
      EliminateClearsPeers(st, x, y);
      assert v[x][0] !in v[y];
    }
    forall b | 0 <= b < 81
      ensures sol[b] in Digits
    {
      assert sol[b] in v[b];
    }
  }

  /** A fully solved board returned by `reduce_puzzle` on a board of digits is a valid solution. */
  lemma {:induction false} ReduceSolvedValid(st: State)
    requires DigitsOnly(st.values)
    requires ReducePuzzle(st).Reduced? && AllSolved(ReducePuzzle(st).st.values)
    decreases 81 - SolvedCount(st.values)
    ensures ValidSolution(Chars(ReducePuzzle(st).st.values))
  {
    var next := Pass(st);
    if SolvedCount(next.values) == SolvedCount(st.values) {
      assert SolvedCount(st.values) == 81;
      PassOnSolved(st);
    } else {
      PassProgress(st);
      RefinesDigitsOnly(next.values, st.values);
      ReduceSolvedValid(next);
    }
  }
}
