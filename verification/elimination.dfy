/**
 The `eliminate` rule: the digit of every box that is solved when the rule
 starts is deleted from all of that box's peers.

 `eliminate` first collects `solved_values`, the boxes with one candidate in
 key order, then visits them. The model scans the boxes in the same order and
 tests each against the board as it was at entry (`entry`), which selects the
 same boxes in the same order.
 */
module Elimination {
  import opened Topology
  import opened Candidates
  import opened Board

  /**
   The inner loop of `eliminate`: the turn's digit is deleted from every
   peer of `box` from position `i` on. The set `peers[box]` that solution.py
   iterates has no specified order; the model uses row-major order.
   */
  function EliminatePeers(st: State, box: Box, digit: string, i: nat): (r: State)
    decreases |st.values| - i
    ensures Refines(r.values, st.values)
    ensures st.log <= r.log
  {
    if i >= |st.values| then st
    else
      var next := if IsPeer(box, i) then AssignValue(st, i, Replace(st.values[i], digit)) else st;
      var r := EliminatePeers(next, box, digit, i + 1);
      RefinesTransitive(r.values, next.values, st.values);
      r
  }

  /**
   The outer loop of `eliminate` from position `i` on, over the boxes solved
   in `entry`. The digit is read from the board when the box's turn comes, so
   a box emptied by an earlier turn deletes nothing (`replace('', '')`
   changes nothing).
   */
  function EliminateFrom(st: State, entry: Board, i: nat): (r: State)
    decreases |entry| - i
    ensures Refines(r.values, st.values)
    ensures st.log <= r.log
  {
    if i >= |entry| then st
    else
      var next := if |entry[i]| == 1 then EliminatePeers(st, i, st.values[i], 0) else st;
      var r := EliminateFrom(next, entry, i + 1);
      RefinesTransitive(r.values, next.values, st.values);
      r
  }

  /** `eliminate(values)`. */
  function Eliminate(st: State): (r: State)
    ensures Refines(r.values, st.values)
    ensures st.log <= r.log
  {
    EliminateFrom(st, st.values, 0)
  }

  /** One turn deletes the turn's digit (at most one character) from the peers of the box, and nothing else. */
  lemma {:induction false} EliminatePeersChars(st: State, box: Box, digit: string, i: nat, p: Box, x: char)
    requires |digit| <= 1
    decreases 81 - i
    ensures x in EliminatePeers(st, box, digit, i).values[p] <==>
      x in st.values[p] && !(i <= p && IsPeer(box, p) && |digit| == 1 && x == digit[0])
  {
    if i < 81 {
      var next := if IsPeer(box, i) then AssignValue(st, i, Replace(st.values[i], digit)) else st;
      EliminatePeersChars(next, box, digit, i + 1, p, x);
    }
  }

  /** A box solved at entry holds nothing or its entry digit when its turn comes. */
  lemma TurnDigit(v: Board, entry: Board, b: Box)
    requires Refines(v, entry) && |entry[b]| == 1
    ensures v[b] == [] || v[b] == entry[b]
  {
    assert entry[b] == [entry[b][0]];
    WithinSingleton(v[b], entry[b][0]);
  }

  lemma {:induction false} EliminateFromClears(st: State, entry: Board, i: nat, b: Box, p: Box)
    requires Refines(st.values, entry)
    requires i <= b && |entry[b]| == 1 && IsPeer(b, p)
    decreases 81 - i
    ensures var r := EliminateFrom(st, entry, i).values; r[b] == [] || entry[b][0] !in r[p]
  {
    var next := if |entry[i]| == 1 then EliminatePeers(st, i, st.values[i], 0) else st;
    var r := EliminateFrom(next, entry, i + 1).values;
    assert EliminateFrom(st, entry, i).values == r;
    if i == b {
      TurnDigit(st.values, entry, b);
      if st.values[b] != [] {
        EliminatePeersChars(st, b, st.values[b], 0, p, entry[b][0]);
      }
    } else {
      RefinesTransitive(next.values, st.values, entry);
      EliminateFromClears(next, entry, i + 1, b, p);
    }
  }

  /**
   After `eliminate`, the digit of a box solved at entry is gone from all its
   peers, unless that box was itself emptied by a solved peer holding the same
   digit (a contradiction the caller detects).
   */
  lemma EliminateClearsPeers(st: State, b: Box, p: Box)
    requires |st.values[b]| == 1 && IsPeer(b, p)
    ensures var r := Eliminate(st).values; r[b] == [] || st.values[b][0] !in r[p]
  {
    EliminateFromClears(st, st.values, 0, b, p);
  }

  lemma {:induction false} EliminateFromKeeps(st: State, entry: Board, i: nat, p: Box, x: char)
    requires Refines(st.values, entry)
    requires forall t: Box :: IsPeer(t, p) && |entry[t]| == 1 ==> entry[t] != [x]
    requires x in st.values[p]
    decreases 81 - i
    ensures x in EliminateFrom(st, entry, i).values[p]
  {
    if i < 81 {
      if |entry[i]| == 1 {
        var next := EliminatePeers(st, i, st.values[i], 0);
        assert EliminateFrom(st, entry, i) == EliminateFrom(next, entry, i + 1);
        TurnKeeps(st, entry, i, p, x);
        RefinesTransitive(next.values, st.values, entry);
        EliminateFromKeeps(next, entry, i + 1, p, x);
      } else {
        assert EliminateFrom(st, entry, i) == EliminateFrom(st, entry, i + 1);
        EliminateFromKeeps(st, entry, i + 1, p, x);
      }
    }
  }

  /** The turn of a box solved at entry keeps a candidate that is not the box's entry digit or not in a peer. */
  lemma TurnKeeps(st: State, entry: Board, b: Box, p: Box, x: char)
    requires Refines(st.values, entry) && |entry[b]| == 1
    requires IsPeer(b, p) ==> entry[b] != [x]
    requires x in st.values[p]
    ensures x in EliminatePeers(st, b, st.values[b], 0).values[p]
  {
    TurnDigit(st.values, entry, b);
    var digit := st.values[b];
    EliminatePeersChars(st, b, digit, 0, p, x);
    if IsPeer(b, p) && |digit| == 1 {
      assert digit == entry[b] != [x];
      assert digit == [digit[0]];
    }
  }

  /** A candidate survives `eliminate` unless some peer was solved at entry with exactly that digit. */
  lemma EliminateKeeps(st: State, p: Box, x: char)
    requires x in st.values[p]
    requires forall t: Box :: IsPeer(t, p) ==> st.values[t] != [x]
    ensures x in Eliminate(st).values[p]
  {
    EliminateFromKeeps(st, st.values, 0, p, x);
  }

  /** `eliminate` never deletes the digit a valid solution places in a box. */
  lemma EliminateSound(st: State, sol: seq<char>)
    requires ValidSolution(sol) && Consistent(sol, st.values)
    ensures Consistent(sol, Eliminate(st).values)
  {
    forall p: Box
      ensures sol[p] in Eliminate(st).values[p]
    {
      forall t: Box | IsPeer(t, p)
        ensures st.values[t] != [sol[p]]
      {
        assert sol[t] in st.values[t];
      }
      EliminateKeeps(st, p, sol[p]);
    }
  }
}
