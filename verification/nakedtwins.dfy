/**
 The `naked_twins` rule: two peers holding the same two candidates take those
 two digits between them, so every other unsolved box of a unit containing
 both loses them.

 `naked_twins` first lists `twin_pairs`, every ordered pair `[b1, b2]` of peers
 that hold the same two-character value at entry, for `b1` in key order and
 `b2` in `peers[b1]`. The model scans `b1` and then `b2` in row-major order
 and tests each pair against the board at entry (`entry`). The iteration
 order of the set `peers[b1]` is unspecified in solution.py; row-major order is
 one of its possible orders.
 */
module NakedTwins {
  import opened Topology
  import opened Candidates
  import opened Board

  /** `b1` and `b2` are peers holding the same two candidates. */
  predicate TwinPair(entry: Board, b1: Box, b2: Box)
  {
    IsPeer(b1, b2) && |entry[b1]| == 2 && entry[b1] == entry[b2]
  }

  /**
   The innermost loop of `naked_twins`: each digit of the twin `b1`, from the
   `i`-th on, is deleted from `box` through `assign_value`. The digits are
   read once, before the loop.
   */
  function StripDigits(st: State, box: Box, digits: string, i: nat): (r: State)
    decreases |digits| - i
    ensures Refines(r.values, st.values)
    ensures st.log <= r.log
  {
    if i >= |digits| then st
    else
      var next := AssignValue(st, box, Replace(st.values[box], [digits[i]]));
      var r := StripDigits(next, box, digits, i + 1);
      RefinesTransitive(r.values, next.values, st.values);
      r
  }

  /**
   The boxes of unit `u` from position `k` on that are neither twin and still
   hold more than one candidate lose every candidate `b1` holds. Each box only
   changes itself, so testing its length when its turn comes selects the same
   boxes as solution.py's list built before the loop.
   */
  function StripUnit(st: State, b1: Box, b2: Box, u: UnitId, k: nat): (r: State)
    decreases 9 - k, st
    ensures Refines(r.values, st.values)
    ensures st.log <= r.log
  {
    if k >= 9 then st
    else
      var box := Unit(u)[k];
      var next := if box != b1 && box != b2 && |st.values[box]| > 1 then StripDigits(st, box, st.values[b1], 0) else st;
      var r := StripUnit(next, b1, b2, u, k + 1);
      RefinesTransitive(r.values, next.values, st.values);
      r
  }

  /** One twin pair: every unit from `u` on that contains both twins, in unit-list order. */
  function StripPair(st: State, b1: Box, b2: Box, u: nat): (r: State)
    decreases 29 - u, st
    ensures Refines(r.values, st.values)
    ensures st.log <= r.log
  {
    if u >= 29 then st
    else
      var next := if InUnit(b1, u) && InUnit(b2, u) then StripUnit(st, b1, b2, u, 0) else st;
      var r := StripPair(next, b1, b2, u + 1);
      RefinesTransitive(r.values, next.values, st.values);
      r
  }

  /** The twin pairs `[b1, b2]` of `entry` with first box `b1`, for `b2` from `j` on. */
  function PairsWith(st: State, entry: Board, b1: Box, j: nat): (r: State)
    decreases 81 - j, st
    ensures Refines(r.values, st.values)
    ensures st.log <= r.log
  {
    if j >= 81 then st
    else
      var next := if TwinPair(entry, b1, j) then StripPair(st, b1, j, 0) else st;
      var r := PairsWith(next, entry, b1, j + 1);
      RefinesTransitive(r.values, next.values, st.values);
      r
  }

  /** The twin pairs of `entry` whose first box is at position `i` or later. */
  function PairsFrom(st: State, entry: Board, i: nat): (r: State)
    decreases 81 - i, st
    ensures Refines(r.values, st.values)
    ensures st.log <= r.log
  {
    if i >= 81 then st
    else
      var next := PairsWith(st, entry, i, 0);
      var r := PairsFrom(next, entry, i + 1);
      RefinesTransitive(r.values, next.values, st.values);
      r
  }

  /** `naked_twins(values)`. */
  function NakedTwins(st: State): (r: State)
    ensures Refines(r.values, st.values)
    ensures st.log <= r.log
  {
    PairsFrom(st, st.values, 0)
  }

  // Which candidates survive, and which boxes are left alone.

  /** Stripping a box deletes exactly the given digits from it and touches no other box. */
  lemma {:induction false} StripDigitsChars(st: State, box: Box, digits: string, i: nat, p: Box, x: char)
    requires i <= |digits|
    decreases |digits| - i
    ensures p != box ==> StripDigits(st, box, digits, i).values[p] == st.values[p]
    ensures x in StripDigits(st, box, digits, i).values[box] <==> x in st.values[box] && x !in digits[i..]
  {
    if i < |digits| {
      var next := AssignValue(st, box, Replace(st.values[box], [digits[i]]));
      StripDigitsChars(next, box, digits, i + 1, p, x);
      assert digits[i..] == [digits[i]] + digits[i + 1..];
    }
  }

  /** A box with at most one candidate is never selected, so it keeps its value. */
  lemma {:induction false} StripUnitKeeps(st: State, b1: Box, b2: Box, u: UnitId, k: nat, p: Box)
    requires |st.values[p]| <= 1
    decreases 9 - k
    ensures StripUnit(st, b1, b2, u, k).values[p] == st.values[p]
  {
    if k < 9 {
      var box := Unit(u)[k];
      if box != b1 && box != b2 && |st.values[box]| > 1 {
        var next := StripDigits(st, box, st.values[b1], 0);
        StripDigitsChars(st, box, st.values[b1], 0, p, 'x');
        StripUnitKeeps(next, b1, b2, u, k + 1, p);
      } else {
        StripUnitKeeps(st, b1, b2, u, k + 1, p);
      }
    }
  }

  lemma {:induction false} StripPairKeeps(st: State, b1: Box, b2: Box, u: nat, p: Box)
    requires |st.values[p]| <= 1
    decreases 29 - u
    ensures StripPair(st, b1, b2, u).values[p] == st.values[p]
  {
    if u < 29 {
      var next := if InUnit(b1, u) && InUnit(b2, u) then StripUnit(st, b1, b2, u, 0) else st;
      if InUnit(b1, u) && InUnit(b2, u) {
        StripUnitKeeps(st, b1, b2, u, 0, p);
      }
      StripPairKeeps(next, b1, b2, u + 1, p);
    }
  }

  lemma {:induction false} PairsWithKeeps(st: State, entry: Board, b1: Box, j: nat, p: Box)
    requires |st.values[p]| <= 1
    decreases 81 - j
    ensures PairsWith(st, entry, b1, j).values[p] == st.values[p]
  {
    if j < 81 {
      var next := if TwinPair(entry, b1, j) then StripPair(st, b1, j, 0) else st;
      if TwinPair(entry, b1, j) {
        StripPairKeeps(st, b1, j, 0, p);
      }
      PairsWithKeeps(next, entry, b1, j + 1, p);
    }
  }

  lemma {:induction false} PairsFromKeeps(st: State, entry: Board, i: nat, p: Box)
    requires |st.values[p]| <= 1
    decreases 81 - i
    ensures PairsFrom(st, entry, i).values[p] == st.values[p]
  {
    if i < 81 {
      PairsWithKeeps(st, entry, i, 0, p);
      PairsFromKeeps(PairsWith(st, entry, i, 0), entry, i + 1, p);
    }
  }

  /** `naked_twins` leaves every box with at most one candidate exactly as it was. */
  lemma NakedTwinsKeepsSolved(st: State, p: Box)
    requires |st.values[p]| <= 1
    ensures NakedTwins(st).values[p] == st.values[p]
  {
    PairsFromKeeps(st, st.values, 0, p);
  }

  // The twins' digits are cleared from the other boxes of their common units.

  /** `box` is solved, empty, or shares no candidate with `twin`. */
  predicate Separated(v: Board, twin: Box, box: Box)
  {
    |v[box]| <= 1 || forall c :: c in v[twin] ==> c !in v[box]
  }

  /** Deleting candidates cannot undo a separation. */
  lemma SeparatedStable(w: Board, v: Board, twin: Box, box: Box)
    requires Refines(w, v) && Separated(v, twin, box)
    ensures Separated(w, twin, box)
  {
  }

  lemma {:induction false} StripUnitClears(st: State, b1: Box, b2: Box, u: UnitId, k: nat, j: int)
    requires k <= j < 9 && Unit(u)[j] != b1 && Unit(u)[j] != b2
    decreases 9 - k
    ensures Separated(StripUnit(st, b1, b2, u, k).values, b1, Unit(u)[j])
  {
    var box := Unit(u)[k];
    var next := if box != b1 && box != b2 && |st.values[box]| > 1 then StripDigits(st, box, st.values[b1], 0) else st;
    var r := StripUnit(next, b1, b2, u, k + 1).values;
    assert StripUnit(st, b1, b2, u, k).values == r;
    if k < j {
      StripUnitClears(next, b1, b2, u, k + 1, j);
    } else {
      if |st.values[box]| > 1 {
        forall c | c in next.values[b1]
          ensures c !in next.values[box]
        {
          StripDigitsChars(st, box, st.values[b1], 0, b1, c);
          assert st.values[b1][0..] == st.values[b1];
        }
      }
      assert Separated(next.values, b1, box);
      SeparatedStable(r, next.values, b1, box);
    }
  }

  lemma {:induction false} StripPairClears(st: State, b1: Box, b2: Box, u: nat, t: UnitId, box: Box)
    requires u <= t && InUnit(b1, t) && InUnit(b2, t) && InUnit(box, t) && box != b1 && box != b2
    decreases 29 - u
    ensures Separated(StripPair(st, b1, b2, u).values, b1, box)
  {
    var next := if InUnit(b1, u) && InUnit(b2, u) then StripUnit(st, b1, b2, u, 0) else st;
    var r := StripPair(next, b1, b2, u + 1).values;
    assert StripPair(st, b1, b2, u).values == r;
    if u < t {
      StripPairClears(next, b1, b2, u + 1, t, box);
    } else {
      var j := UnitPosition(box, t);
      StripUnitClears(st, b1, b2, t, 0, j);
      SeparatedStable(r, next.values, b1, box);
    }
  }

  lemma {:induction false} PairsWithClears(st: State, entry: Board, b1: Box, j: nat, b2: Box, t: UnitId, box: Box)
    requires j <= b2 && TwinPair(entry, b1, b2)
    requires InUnit(b1, t) && InUnit(b2, t) && InUnit(box, t) && box != b1 && box != b2
    decreases 81 - j
    ensures Separated(PairsWith(st, entry, b1, j).values, b1, box)
  {
    var next := if TwinPair(entry, b1, j) then StripPair(st, b1, j, 0) else st;
    var r := PairsWith(next, entry, b1, j + 1).values;
    assert PairsWith(st, entry, b1, j).values == r;
    if j < b2 {
      PairsWithClears(next, entry, b1, j + 1, b2, t, box);
    } else {
      StripPairClears(st, b1, b2, 0, t, box);
      SeparatedStable(r, next.values, b1, box);
    }
  }

  lemma {:induction false} PairsFromClears(st: State, entry: Board, i: nat, b1: Box, b2: Box, t: UnitId, box: Box)
    requires i <= b1 && TwinPair(entry, b1, b2)
    requires InUnit(b1, t) && InUnit(b2, t) && InUnit(box, t) && box != b1 && box != b2
    decreases 81 - i
    ensures Separated(PairsFrom(st, entry, i).values, b1, box)
  {
    var next := PairsWith(st, entry, i, 0);
    var r := PairsFrom(next, entry, i + 1).values;
    assert PairsFrom(st, entry, i).values == r;
    if i < b1 {
      PairsFromClears(next, entry, i + 1, b1, b2, t, box);
    } else {
      PairsWithClears(st, entry, b1, 0, b2, t, box);
      SeparatedStable(r, next.values, b1, box);
    }
  }

  /**
   For twins at entry, every other box of a unit containing both ends up
   solved, empty, or holding none of either twin's remaining candidates.
   */
  lemma NakedTwinsClears(st: State, b1: Box, b2: Box, t: UnitId, box: Box)
    requires TwinPair(st.values, b1, b2)
    requires InUnit(b1, t) && InUnit(b2, t) && InUnit(box, t) && box != b1 && box != b2
    ensures Separated(NakedTwins(st).values, b1, box)
    ensures Separated(NakedTwins(st).values, b2, box)
  {
    PairsFromClears(st, st.values, 0, b1, b2, t, box);
    assert IsPeer(b2, b1);
    PairsFromClears(st, st.values, 0, b2, b1, t, box);
  }

  // Soundness: a valid solution the board allows is never ruled out.

  /** The two candidates of a twin pair are exactly the digits a valid solution puts in the twins. */
  lemma TwinDigits(entry: Board, b1: Box, b2: Box, sol: seq<char>, c: char)
    requires TwinPair(entry, b1, b2) && ValidSolution(sol) && Consistent(sol, entry)
    requires c in entry[b1]
    ensures c == sol[b1] || c == sol[b2]
  {
    var e := entry[b1];
    assert e == [e[0], e[1]];
    assert sol[b1] != sol[b2];
  }

  lemma {:induction false} StripDigitsSound(st: State, box: Box, digits: string, i: nat, sol: seq<char>)
    requires i <= |digits| && Consistent(sol, st.values) && sol[box] !in digits
    ensures Consistent(sol, StripDigits(st, box, digits, i).values)
  {
    forall p: Box
      ensures sol[p] in StripDigits(st, box, digits, i).values[p]
    {
      StripDigitsChars(st, box, digits, i, p, sol[p]);
      if p == box {
        assert sol[p] !in digits[i..];
      }
    }
  }

  lemma {:induction false} StripUnitSound(st: State, b1: Box, b2: Box, u: UnitId, k: nat, sol: seq<char>)
    requires ValidSolution(sol) && Consistent(sol, st.values)
    requires InUnit(b1, u) && InUnit(b2, u)
    requires forall c :: c in st.values[b1] ==> c == sol[b1] || c == sol[b2]
    decreases 9 - k
    ensures Consistent(sol, StripUnit(st, b1, b2, u, k).values)
  {
    if k < 9 {
      var box := Unit(u)[k];
      if box != b1 && box != b2 && |st.values[box]| > 1 {
        var next := StripDigits(st, box, st.values[b1], 0);
        StripBoxSound(st, b1, b2, u, k, sol);
        StripUnitSound(next, b1, b2, u, k + 1, sol);
      } else {
        StripUnitSound(st, b1, b2, u, k + 1, sol);
      }
    }
  }

  /** Stripping one box of a common unit keeps the solution's digit there and leaves the first twin alone. */
  lemma StripBoxSound(st: State, b1: Box, b2: Box, u: UnitId, k: int, sol: seq<char>)
    requires 0 <= k < 9 && Unit(u)[k] != b1 && Unit(u)[k] != b2
    requires ValidSolution(sol) && Consistent(sol, st.values)
    requires InUnit(b1, u) && InUnit(b2, u)
    requires forall c :: c in st.values[b1] ==> c == sol[b1] || c == sol[b2]
    ensures Consistent(sol, StripDigits(st, Unit(u)[k], st.values[b1], 0).values)
    ensures StripDigits(st, Unit(u)[k], st.values[b1], 0).values[b1] == st.values[b1]
  {
    var box := Unit(u)[k];
    UnitBoxInUnit(u, k);
    assert IsPeer(box, b1) && IsPeer(box, b2);
    StripDigitsSound(st, box, st.values[b1], 0, sol);
    StripDigitsChars(st, box, st.values[b1], 0, b1, 'x');
  }

  lemma {:induction false} StripPairSound(st: State, b1: Box, b2: Box, u: nat, sol: seq<char>)
    requires ValidSolution(sol) && Consistent(sol, st.values)
    requires forall c :: c in st.values[b1] ==> c == sol[b1] || c == sol[b2]
    decreases 29 - u
    ensures Consistent(sol, StripPair(st, b1, b2, u).values)
  {
    if u < 29 {
      if InUnit(b1, u) && InUnit(b2, u) {
        var next := StripUnit(st, b1, b2, u, 0);
        StripUnitSound(st, b1, b2, u, 0, sol);
        StripUnitKeepsTwin(st, b1, b2, u, 0);
        StripPairSound(next, b1, b2, u + 1, sol);
      } else {
        StripPairSound(st, b1, b2, u + 1, sol);
      }
    }
  }

  /** Neither twin is ever selected, so both twins' candidates stay as they are. */
  lemma {:induction false} StripUnitKeepsTwin(st: State, b1: Box, b2: Box, u: UnitId, k: nat)
    decreases 9 - k
    ensures StripUnit(st, b1, b2, u, k).values[b1] == st.values[b1]
    ensures StripUnit(st, b1, b2, u, k).values[b2] == st.values[b2]
  {
    if k < 9 {
      var box := Unit(u)[k];
      if box != b1 && box != b2 && |st.values[box]| > 1 {
        StripDigitsChars(st, box, st.values[b1], 0, b1, 'x');
        StripDigitsChars(st, box, st.values[b1], 0, b2, 'x');
        StripUnitKeepsTwin(StripDigits(st, box, st.values[b1], 0), b1, b2, u, k + 1);
      } else {
        StripUnitKeepsTwin(st, b1, b2, u, k + 1);
      }
    }
  }

  lemma {:induction false} PairsWithSound(st: State, entry: Board, b1: Box, j: nat, sol: seq<char>)
    requires ValidSolution(sol) && Consistent(sol, st.values) && Refines(st.values, entry)
    decreases 81 - j
    ensures Consistent(sol, PairsWith(st, entry, b1, j).values)
  {
    if j < 81 {
      if TwinPair(entry, b1, j) {
        forall c | c in st.values[b1]
          ensures c == sol[b1] || c == sol[j]
        {
          TwinDigits(entry, b1, j, sol, c);
        }
        var next := StripPair(st, b1, j, 0);
        StripPairSound(st, b1, j, 0, sol);
        RefinesTransitive(next.values, st.values, entry);
        PairsWithSound(next, entry, b1, j + 1, sol);
      } else {
        PairsWithSound(st, entry, b1, j + 1, sol);
      }
    }
  }

  lemma {:induction false} PairsFromSound(st: State, entry: Board, i: nat, sol: seq<char>)
    requires ValidSolution(sol) && Consistent(sol, st.values) && Refines(st.values, entry)
    decreases 81 - i
    ensures Consistent(sol, PairsFrom(st, entry, i).values)
  {
    if i < 81 {
      var next := PairsWith(st, entry, i, 0);
      PairsWithSound(st, entry, i, 0, sol);
      RefinesTransitive(next.values, st.values, entry);
      PairsFromSound(next, entry, i + 1, sol);
    }
  }

  /** `naked_twins` never removes the digit a valid solution places in a box. */
  lemma NakedTwinsSound(st: State, sol: seq<char>)
    requires ValidSolution(sol) && Consistent(sol, st.values)
    ensures Consistent(sol, NakedTwins(st).values)
  {
    PairsFromSound(st, st.values, 0, sol);
  }
}
