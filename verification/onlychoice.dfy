/**
 The `only_choice` rule: for every unit and every digit, a digit that only
 one box of the unit can still hold is written into that box.
 */
module OnlyChoice {
  import opened Topology
  import opened Candidates
  import opened Board

  /** `dplaces`, from position `k` of unit `u` on: the boxes that still hold `d`, in unit order. */
  function PlacesFrom(v: Board, u: UnitId, d: char, k: nat): (r: seq<Box>)
    decreases 9 - k, v
  {
    if k >= 9 then []
    else
      var b := Unit(u)[k];
      (if d in v[b] then [b] else []) + PlacesFrom(v, u, d, k + 1)
  }

  /** `dplaces` in `only_choice`: the boxes of unit `u` that still hold digit `d`, in unit order. */
  function Places(v: Board, u: UnitId, d: char): seq<Box>
  {
    PlacesFrom(v, u, d, 0)
  }

  /** Every place is a box of the unit, at position `k` or later, that holds the digit. */
  lemma {:induction false} PlacesFromMember(v: Board, u: UnitId, d: char, k: nat, i: int) returns (j: int)
    requires 0 <= i < |PlacesFrom(v, u, d, k)|
    decreases 9 - k
    ensures k <= j < 9 && PlacesFrom(v, u, d, k)[i] == Unit(u)[j] && d in v[Unit(u)[j]]
  {
    if d in v[Unit(u)[k]] && i == 0 {
      j := k;
    } else {
      j := PlacesFromMember(v, u, d, k + 1, if d in v[Unit(u)[k]] then i - 1 else i);
    }
  }

  /** Every box of the unit at position `k` or later that holds the digit is a place. */
  lemma {:induction false} PlacesFromComplete(v: Board, u: UnitId, d: char, k: nat, j: int)
    requires k <= j < 9 && d in v[Unit(u)[j]]
    decreases 9 - k
    ensures Unit(u)[j] in PlacesFrom(v, u, d, k)
  {
    if k < j {
      PlacesFromComplete(v, u, d, k + 1, j);
    }
  }

  /** When only position `jb` from `k` on holds the digit, the places are that one box. */
  lemma {:induction false} PlacesFromOne(v: Board, u: UnitId, d: char, k: nat, jb: int)
    requires k <= jb < 9 && d in v[Unit(u)[jb]]
    requires forall j :: k <= j < 9 && j != jb ==> d !in v[Unit(u)[j]]
    decreases 9 - k
    ensures PlacesFrom(v, u, d, k) == [Unit(u)[jb]]
  {
    if k < jb {
      PlacesFromOne(v, u, d, k + 1, jb);
    } else {
      PlacesFromNone(v, u, d, k + 1);
    }
  }

  lemma {:induction false} PlacesFromNone(v: Board, u: UnitId, d: char, k: nat)
    requires forall j :: k <= j < 9 ==> d !in v[Unit(u)[j]]
    decreases 9 - k
    ensures PlacesFrom(v, u, d, k) == []
  {
    if k < 9 {
      PlacesFromNone(v, u, d, k + 1);
    }
  }

  /** The `k`-th box of unit `u` is the only box of `u` that can still hold `d`. */
  predicate HiddenSingle(v: Board, u: UnitId, d: char, k: int)
  {
    0 <= k < 9 && d in v[Unit(u)[k]] && forall j :: 0 <= j < 9 && d in v[Unit(u)[j]] ==> j == k
  }

  /** The places of a digit are exactly one box precisely when that box is a hidden single. */
  lemma PlacesSingle(v: Board, u: UnitId, d: char, k: int)
    requires 0 <= k < 9
    ensures Places(v, u, d) == [Unit(u)[k]] <==> HiddenSingle(v, u, d, k)
  {
    if Places(v, u, d) == [Unit(u)[k]] {
      var j := PlacesFromMember(v, u, d, 0, 0);
      if j < k {
        UnitBoxInjective(u, j, k);
      } else if k < j {
        UnitBoxInjective(u, k, j);
      }
      forall j | 0 <= j < 9 && d in v[Unit(u)[j]]
        ensures j == k
      {
        PlacesFromComplete(v, u, d, 0, j);
        if j < k {
          UnitBoxInjective(u, j, k);
        } else if k < j {
          UnitBoxInjective(u, k, j);
        }
      }
    }
    if HiddenSingle(v, u, d, k) {
      PlacesFromOne(v, u, d, 0, k);
    }
  }

  /** When a digit has a single place, that place is a hidden single. */
  lemma OnePlace(v: Board, u: UnitId, d: char) returns (k: int)
    requires |Places(v, u, d)| == 1
    ensures 0 <= k < 9 && Places(v, u, d)[0] == Unit(u)[k] && HiddenSingle(v, u, d, k)
  {
    k := PlacesFromMember(v, u, d, 0, 0);
    assert Places(v, u, d) == [Unit(u)[k]];
    PlacesSingle(v, u, d, k);
  }

  /** One step of `only_choice`: the digit `d` in unit `u`. */
  function ChoiceTurn(st: State, u: UnitId, d: char): (r: State)
    ensures st.log <= r.log
  {
    var ps := Places(st.values, u, d);
    if |ps| == 1 then AssignValue(st, ps[0], [d]) else st
  }

  /** The inner loop of `only_choice` over the digits of unit `u`, from the `j`-th digit on, in ascending order. */
  function UnitChoice(st: State, u: UnitId, j: nat): (r: State)
    decreases 9 - j, st
    ensures st.log <= r.log
  {
    if j >= 9 then st
    else UnitChoice(ChoiceTurn(st, u, Digits[j]), u, j + 1)
  }

  /**
   The outer loop of `only_choice` over the units from `u` on, in unit-list
   order. The places of each digit are computed on the board as it is when
   the digit's turn comes.
   */
  function OnlyChoiceFrom(st: State, u: nat): (r: State)
    decreases 29 - u, st
    ensures st.log <= r.log
  {
    if u >= 29 then st
    else OnlyChoiceFrom(UnitChoice(st, u, 0), u + 1)
  }

  /** `only_choice(values)`. */
  function OnlyChoice(st: State): (r: State)
    ensures st.log <= r.log
  {
    OnlyChoiceFrom(st, 0)
  }

  /**
   Every box of `w` is as in `v`, or has become the single candidate `[c]`
   for one of its own candidates `c`.
   */
  predicate Chosen(w: Board, v: Board)
  {
    forall b :: 0 <= b < 81 ==> w[b] == v[b] || (|w[b]| == 1 && w[b][0] in v[b])
  }

  lemma ChosenRefines(w: Board, v: Board)
    requires Chosen(w, v)
    ensures Refines(w, v)
  {
    forall b | 0 <= b < 81
      ensures Within(w[b], v[b])
    {
      if w[b] != v[b] {
        assert w[b] == [w[b][0]];
      }
    }
  }

  lemma ChosenTransitive(x: Board, y: Board, z: Board)
    requires Chosen(x, y) && Chosen(y, z)
    ensures Chosen(x, z)
  {
    forall b | 0 <= b < 81
      ensures x[b] == z[b] || (|x[b]| == 1 && x[b][0] in z[b])
    {
      if x[b] != y[b] && y[b] != z[b] {
        assert y[b] == [y[b][0]];
      }
    }
  }

  /** One turn writes a digit only into a box that holds it. */
  lemma TurnChosen(st: State, u: UnitId, d: char)
    ensures Chosen(ChoiceTurn(st, u, d).values, st.values)
  {
    var ps := Places(st.values, u, d);
    if |ps| == 1 {
      var k := OnePlace(st.values, u, d);
    }
  }

  lemma {:induction false} UnitChoiceChosen(st: State, u: UnitId, j: nat)
    decreases 9 - j
    ensures Chosen(UnitChoice(st, u, j).values, st.values)
  {
    if j < 9 {
      var next := ChoiceTurn(st, u, Digits[j]);
      TurnChosen(st, u, Digits[j]);
      UnitChoiceChosen(next, u, j + 1);
      ChosenTransitive(UnitChoice(next, u, j + 1).values, next.values, st.values);
    }
  }

  lemma {:induction false} OnlyChoiceFromChosen(st: State, u: nat)
    decreases 29 - u
    ensures Chosen(OnlyChoiceFrom(st, u).values, st.values)
  {
    if u < 29 {
      var next := UnitChoice(st, u, 0);
      UnitChoiceChosen(st, u, 0);
      OnlyChoiceFromChosen(next, u + 1);
      ChosenTransitive(OnlyChoiceFrom(next, u + 1).values, next.values, st.values);
    }
  }

  /** `only_choice` only ever narrows a box to one of its own candidates. */
  lemma OnlyChoiceChosen(st: State)
    ensures Chosen(OnlyChoice(st).values, st.values)
    ensures Refines(OnlyChoice(st).values, st.values)
  {
    OnlyChoiceFromChosen(st, 0);
    ChosenRefines(OnlyChoice(st).values, st.values);
  }

  /** The `k`-th box of unit `u` is solved and no other box of the unit can hold its digit. */
  predicate Isolated(v: Board, u: UnitId, k: int)
  {
    0 <= k < 9 && |v[Unit(u)[k]]| == 1
    && forall j :: 0 <= j < 9 && j != k ==> v[Unit(u)[k]][0] !in v[Unit(u)[j]]
  }

  lemma ChosenKeepsIsolated(w: Board, v: Board, u: UnitId, k: int)
    requires Chosen(w, v) && Isolated(v, u, k)
    ensures Isolated(w, u, k)
  {
    var b := Unit(u)[k];
    assert v[b] == [v[b][0]];
    forall j | 0 <= j < 9 && j != k
      ensures w[b][0] !in w[Unit(u)[j]]
    {
      var c := Unit(u)[j];
      if w[c] != v[c] {
        assert w[c] == [w[c][0]];
      }
    }
  }

  /** The turn that changes a box leaves it isolated in the turn's unit. */
  lemma TurnIsolates(st: State, u: UnitId, d: char, b: Box) returns (k: int)
    requires ChoiceTurn(st, u, d).values[b] != st.values[b]
    ensures 0 <= k < 9 && Unit(u)[k] == b && Isolated(ChoiceTurn(st, u, d).values, u, k)
  {
    k := OnePlace(st.values, u, d);
    var r := ChoiceTurn(st, u, d).values;
    forall j | 0 <= j < 9 && j != k
      ensures d !in r[Unit(u)[j]]
    {
    }
  }

  lemma {:induction false} UnitChoiceIsolates(st: State, u: UnitId, j: nat, b: Box) returns (unit: UnitId, k: int)
    requires UnitChoice(st, u, j).values[b] != st.values[b]
    decreases 9 - j
    ensures 0 <= k < 9 && Unit(unit)[k] == b && Isolated(UnitChoice(st, u, j).values, unit, k)
  {
    var next := ChoiceTurn(st, u, Digits[j]);
    var r := UnitChoice(next, u, j + 1).values;
    if r[b] != next.values[b] {
      unit, k := UnitChoiceIsolates(next, u, j + 1, b);
    } else {
      unit := u;
      k := TurnIsolates(st, u, Digits[j], b);
      UnitChoiceChosen(next, u, j + 1);
      ChosenKeepsIsolated(r, next.values, unit, k);
    }
  }

  lemma {:induction false} OnlyChoiceFromIsolates(st: State, u: nat, b: Box) returns (unit: UnitId, k: int)
    requires OnlyChoiceFrom(st, u).values[b] != st.values[b]
    decreases 29 - u
    ensures 0 <= k < 9 && Unit(unit)[k] == b && Isolated(OnlyChoiceFrom(st, u).values, unit, k)
  {
    var next := UnitChoice(st, u, 0);
    var r := OnlyChoiceFrom(next, u + 1).values;
    if r[b] != next.values[b] {
      unit, k := OnlyChoiceFromIsolates(next, u + 1, b);
    } else {
      unit, k := UnitChoiceIsolates(st, u, 0, b);
      OnlyChoiceFromChosen(next, u + 1);
      ChosenKeepsIsolated(r, next.values, unit, k);
    }
  }

  /**
   Every box `only_choice` changes ends up solved, with its digit held by no
   other box of some unit containing it: a hidden single made explicit.
   */
  lemma OnlyChoiceIsolates(st: State, b: Box) returns (unit: UnitId, k: int)
    requires OnlyChoice(st).values[b] != st.values[b]
    ensures 0 <= k < 9 && Unit(unit)[k] == b && Isolated(OnlyChoice(st).values, unit, k)
  {
    unit, k := OnlyChoiceFromIsolates(st, 0, b);
  }

  /** A valid solution consistent with the board puts a hidden single's digit in its box. */
  lemma HiddenSingleForced(v: Board, u: UnitId, d: char, k: int, sol: seq<char>)
    requires ValidSolution(sol) && Consistent(sol, v)
    requires d in Digits && HiddenSingle(v, u, d, k)
    ensures sol[Unit(u)[k]] == d
  {
    EveryDigitInEveryUnit(sol, u, d);
  }

  lemma TurnSound(st: State, u: UnitId, j: int, sol: seq<char>)
    requires 0 <= j < 9
    requires ValidSolution(sol) && Consistent(sol, st.values)
    ensures Consistent(sol, ChoiceTurn(st, u, Digits[j]).values)
  {
    var d := Digits[j];
    if |Places(st.values, u, d)| == 1 {
      var k := OnePlace(st.values, u, d);
      HiddenSingleForced(st.values, u, d, k, sol);
    }
  }

  lemma {:induction false} UnitChoiceSound(st: State, u: UnitId, j: nat, sol: seq<char>)
    requires ValidSolution(sol) && Consistent(sol, st.values)
    decreases 9 - j
    ensures Consistent(sol, UnitChoice(st, u, j).values)
  {
    if j < 9 {
      TurnSound(st, u, j, sol);
      UnitChoiceSound(ChoiceTurn(st, u, Digits[j]), u, j + 1, sol);
    }
  }

  lemma {:induction false} OnlyChoiceFromSound(st: State, u: nat, sol: seq<char>)
    requires ValidSolution(sol) && Consistent(sol, st.values)
    decreases 29 - u
    ensures Consistent(sol, OnlyChoiceFrom(st, u).values)
  {
    if u < 29 {
      UnitChoiceSound(st, u, 0, sol);
      OnlyChoiceFromSound(UnitChoice(st, u, 0), u + 1, sol);
    }
  }

  /** `only_choice` never removes the digit a valid solution places in a box. */
  lemma OnlyChoiceSound(st: State, sol: seq<char>)
    requires ValidSolution(sol) && Consistent(sol, st.values)
    ensures Consistent(sol, OnlyChoice(st).values)
  {
    OnlyChoiceFromSound(st, 0, sol);
  }
}
