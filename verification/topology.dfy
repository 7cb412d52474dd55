/**
 The fixed layout of a diagonal Sudoku: 81 boxes named by a row letter and a
 column digit, the 29 units (9 rows, 9 columns, 9 squares, 2 diagonals), the
 units each box belongs to, and the peer relation derived from them.

 A box is represented by its row-major position: box `b` lies in row `b / 9`
 and column `b % 9`, and its name is `Name(b)`, e.g. box 0 is "A1", box 80 is "I9".
 */
module Topology {

  /** `rows = 'ABCDEFGHI'`. */
  const Rows: string := Run('A')
  /** `cols = '123456789'`. */
  const Cols: string := Run('1')

  /** Nine consecutive characters starting at `first`. */
  function Run(first: char): (r: string)
    requires first as int + 9 <= 0xD800
    ensures |r| == 9
  {
    seq(9, i requires 0 <= i < 9 => (first as int + i) as char)
  }

  type Box = b: int | 0 <= b < 81
  /** Index into the unit list: 0..8 rows, 9..17 columns, 18..26 squares, 27 and 28 the diagonals. */
  type UnitId = u: int | 0 <= u < 29

  /** The cross product of two strings: every character of `a` followed by every character of `b`. */
  function Cross(a: string, b: string): (r: seq<string>)
    ensures |r| == |a| * |b|
  {
    if a == [] then []
    else seq(|b|, j requires 0 <= j < |b| => [a[0], b[j]]) + Cross(a[1..], b)
  }

  lemma {:induction false} CrossAt(a: string, b: string, i: int, j: int)
    requires 0 <= i < |a| && 0 <= j < |b|
    ensures i * |b| + j < |Cross(a, b)|
    ensures Cross(a, b)[i * |b| + j] == [a[i], b[j]]
  {
    if i > 0 {
      CrossAt(a[1..], b, i - 1, j);
      assert i * |b| + j == |b| + ((i - 1) * |b| + j);
    }
  }

  function At(row: int, col: int): Box
    requires 0 <= row < 9 && 0 <= col < 9
  {
    9 * row + col
  }

  function RowOf(b: Box): int { b / 9 }
  function ColOf(b: Box): int { b % 9 }

  lemma AtInverse(row: int, col: int)
    requires 0 <= row < 9 && 0 <= col < 9
    ensures RowOf(At(row, col)) == row && ColOf(At(row, col)) == col
  {
  }

  /** The key of a box in solution.py: its row letter followed by its column digit. */
  function Name(b: Box): string
  {
    [Rows[RowOf(b)], Cols[ColOf(b)]]
  }

  /** The name of the box in row `row` and column `col`. */
  lemma NameAt(row: int, col: int)
    requires 0 <= row < 9 && 0 <= col < 9
    ensures Name(At(row, col)) == [Rows[row], Cols[col]]
  {
    AtInverse(row, col);
  }

  /** `boxes`, the cross of rows and columns, lists every box name once, in row-major order. */
  lemma BoxesAreNames()
    ensures |Cross(Rows, Cols)| == 81
    ensures forall b: Box :: Cross(Rows, Cols)[b] == Name(b)
  {
    forall b: Box
      ensures Cross(Rows, Cols)[b] == Name(b)
    {
      CrossAt(Rows, Cols, RowOf(b), ColOf(b));
    }
  }

  lemma RowsIncreasing(i: int, j: int)
    requires 0 <= i < 9 && 0 <= j < 9
    ensures Rows[i] < Rows[j] <==> i < j
    ensures Rows[i] == Rows[j] <==> i == j
  {
    assert Rows[0] == 'A' && Rows[1] == 'B' && Rows[2] == 'C' && Rows[3] == 'D' && Rows[4] == 'E';
    assert Rows[5] == 'F' && Rows[6] == 'G' && Rows[7] == 'H' && Rows[8] == 'I';
  }

  lemma ColsIncreasing(i: int, j: int)
    requires 0 <= i < 9 && 0 <= j < 9
    ensures Cols[i] < Cols[j] <==> i < j
    ensures Cols[i] == Cols[j] <==> i == j
  {
    assert Cols[0] == '1' && Cols[1] == '2' && Cols[2] == '3' && Cols[3] == '4' && Cols[4] == '5';
    assert Cols[5] == '6' && Cols[6] == '7' && Cols[7] == '8' && Cols[8] == '9';
  }

  /** Python's ordering of strings: lexicographic by character code, a proper prefix first. */
  predicate StrLess(a: string, b: string)
  {
    if |b| == 0 then false
    else if |a| == 0 then true
    else if a[0] != b[0] then a[0] < b[0]
    else StrLess(a[1..], b[1..])
  }

  /** Box names compare like box positions, so "smallest name" means "first in row-major order". */
  lemma NameOrder(a: Box, b: Box)
    ensures StrLess(Name(a), Name(b)) <==> a < b
    ensures Name(a) == Name(b) <==> a == b
  {
    var ra, ca, rb, cb := RowOf(a), ColOf(a), RowOf(b), ColOf(b);
    assert a == 9 * ra + ca && b == 9 * rb + cb;
    RowsIncreasing(ra, rb);
    ColsIncreasing(ca, cb);
    var na, nb := Name(a), Name(b);
    assert na[1..] == [Cols[ca]] && nb[1..] == [Cols[cb]];
    assert StrLess(na[1..], nb[1..]) <==> Cols[ca] < Cols[cb] by {
      assert na[1..][1..] == [] && nb[1..][1..] == [];
    }
    assert StrLess(na, nb) <==> (ra < rb || (ra == rb && ca < cb));
  }

  /** The k-th box (0 <= k < 9) of unit `u`, in the order solution.py lists it. */
  function UnitBox(u: UnitId, k: int): Box
    requires 0 <= k < 9
  {
    if u < 9 then At(u, k)
    else if u < 18 then At(k, u - 9)
    else if u < 27 then At(3 * ((u - 18) / 3) + k / 3, 3 * ((u - 18) % 3) + k % 3)
    else if u == 27 then At(k, k)
    else At(k, 8 - k)
  }

  /** Unit `u` of the unit list: its nine boxes in the order solution.py lists them. */
  function Unit(u: UnitId): (r: seq<Box>)
    ensures |r| == 9
  {
    seq(9, k requires 0 <= k < 9 => UnitBox(u, k))
  }

  /** Every unit holds nine distinct boxes. */
  lemma UnitDistinct(u: UnitId)
    ensures forall i, j :: 0 <= i < j < 9 ==> Unit(u)[i] != Unit(u)[j]
  {
    forall i, j | 0 <= i < j < 9
      ensures Unit(u)[i] != Unit(u)[j]
    {
      UnitBoxInjective(u, i, j);
    }
  }

  lemma UnitBoxInjective(u: UnitId, i: int, j: int)
    requires 0 <= i < j < 9
    ensures UnitBox(u, i) != UnitBox(u, j)
  {
    if 18 <= u < 27 {
      var q := u - 18;
      AtInverse(3 * (q / 3) + i / 3, 3 * (q % 3) + i % 3);
      AtInverse(3 * (q / 3) + j / 3, 3 * (q % 3) + j % 3);
    }
  }

  /** Membership in unit `u` by coordinates. */
  predicate InUnit(b: Box, u: UnitId)
  {
    if u < 9 then RowOf(b) == u
    else if u < 18 then ColOf(b) == u - 9
    else if u < 27 then RowOf(b) / 3 == (u - 18) / 3 && ColOf(b) / 3 == (u - 18) % 3
    else if u == 27 then RowOf(b) == ColOf(b)
    else RowOf(b) + ColOf(b) == 8
  }

  lemma UnitMembership(b: Box, u: UnitId)
    ensures b in Unit(u) <==> InUnit(b, u)
  {
    if InUnit(b, u) {
      var k := UnitPosition(b, u);
      assert Unit(u)[k] == b;
    }
    if b in Unit(u) {
      var k :| 0 <= k < 9 && Unit(u)[k] == b;
      UnitBoxInUnit(u, k);
    }
  }

  /** Where box `b` sits in a unit that contains it. */
  function UnitPosition(b: Box, u: UnitId): (k: int)
    requires InUnit(b, u)
    ensures 0 <= k < 9 && UnitBox(u, k) == b
  {
    var r, c := RowOf(b), ColOf(b);
    assert b == At(r, c);
    if u < 9 then c
    else if u < 18 then r
    else if u < 27 then
      var q := u - 18;
      assert r == 3 * (q / 3) + r % 3 && c == 3 * (q % 3) + c % 3;
      var k := 3 * (r % 3) + c % 3;
      assert k / 3 == r % 3 && k % 3 == c % 3;
      k
    else r
  }

  lemma UnitBoxInUnit(u: UnitId, k: int)
    requires 0 <= k < 9
    ensures InUnit(UnitBox(u, k), u)
  {
    if u < 9 {
      AtInverse(u, k);
    } else if u < 18 {
      AtInverse(k, u - 9);
    } else if u < 27 {
      var q := u - 18;
      DivThree(q / 3, q % 3);
      SquareBoxInUnit(q / 3, q % 3, k);
    } else if u == 27 {
      AtInverse(k, k);
    } else {
      AtInverse(k, 8 - k);
    }
  }


  /** The k-th box of square (i, j) lies in rows 3i..3i+2 and columns 3j..3j+2. */
  lemma SquareBoxInUnit(i: int, j: int, k: int)
    requires 0 <= i < 3 && 0 <= j < 3 && 0 <= k < 9
    ensures InUnit(UnitBox(18 + 3 * i + j, k), 18 + 3 * i + j)
  {
    var u := 18 + 3 * i + j;
    var x, y := SquareCell(i, j, k);
    var b := At(3 * i + x, 3 * j + y);
    AtInverse(3 * i + x, 3 * j + y);
    DivThree(i, x);
    DivThree(j, y);
    DivThree(i, j);
    assert RowOf(b) / 3 == i && ColOf(b) / 3 == j;
    assert (u - 18) / 3 == i && (u - 18) % 3 == j;
  }

  function Names(bs: seq<Box>): (r: seq<string>)
    ensures |r| == |bs|
  {
    seq(|bs|, k requires 0 <= k < |bs| => Name(bs[k]))
  }

  /** Row unit `r` lists the names of `cross(r, cols)`. */
  lemma RowUnitIsSource(r: int)
    requires 0 <= r < 9
    ensures Names(Unit(r)) == Cross([Rows[r]], Cols)
  {
    forall k | 0 <= k < 9
      ensures Names(Unit(r))[k] == Cross([Rows[r]], Cols)[k]
    {
      CrossAt([Rows[r]], Cols, 0, k);
      AtInverse(r, k);
    }
  }

  /** Column unit `9 + c` lists the names of `cross(rows, c)`. */
  lemma ColumnUnitIsSource(c: int)
    requires 0 <= c < 9
    ensures Names(Unit(9 + c)) == Cross(Rows, [Cols[c]])
  {
    forall k | 0 <= k < 9
      ensures Names(Unit(9 + c))[k] == Cross(Rows, [Cols[c]])[k]
    {
      CrossAt(Rows, [Cols[c]], k, 0);
      AtInverse(k, c);
    }
  }

  /** Square unit `18 + 3i + j` lists the names of `cross(rs, cs)` for the i-th row triple and j-th column triple. */
  lemma SquareUnitIsSource(i: int, j: int)
    requires 0 <= i < 3 && 0 <= j < 3
    ensures Names(Unit(18 + 3 * i + j)) == Cross(Rows[3 * i..3 * i + 3], Cols[3 * j..3 * j + 3])
  {
    var names, cross := Names(Unit(18 + 3 * i + j)), Cross(Rows[3 * i..3 * i + 3], Cols[3 * j..3 * j + 3]);
    SquareNameAt(i, j, 0);
    forall k | 0 <= k < 9
      ensures names[k] == cross[k]
    {
      SquareNameAt(i, j, k);
    }
    assert names == cross;
  }

  lemma SquareNameAt(i: int, j: int, k: int)
    requires 0 <= i < 3 && 0 <= j < 3 && 0 <= k < 9
    ensures |Cross(Rows[3 * i..3 * i + 3], Cols[3 * j..3 * j + 3])| == 9
    ensures Names(Unit(18 + 3 * i + j))[k] == Cross(Rows[3 * i..3 * i + 3], Cols[3 * j..3 * j + 3])[k]
  {
    var name := [Rows[3 * i + k / 3], Cols[3 * j + k % 3]];
    SquareBoxName(i, j, k);
    CrossTriples(Rows, Cols, i, j, k);
    assert Names(Unit(18 + 3 * i + j))[k] == name;
  }

  /** The k-th box of square unit `18 + 3i + j` is named by row `3i + k / 3` and column `3j + k % 3`. */
  lemma SquareBoxName(i: int, j: int, k: int)
    requires 0 <= i < 3 && 0 <= j < 3 && 0 <= k < 9
    ensures Names(Unit(18 + 3 * i + j))[k] == [Rows[3 * i + k / 3], Cols[3 * j + k % 3]]
  {
    var x, y := SquareCell(i, j, k);
    NameAt(3 * i + x, 3 * j + y);
    assert Unit(18 + 3 * i + j)[k] == At(3 * i + x, 3 * j + y);
  }

  /** Position `k` of the cross product of the i-th triple of `a` and the j-th triple of `b`. */
  lemma CrossTriples(a: string, b: string, i: int, j: int, k: int)
    requires |a| == 9 && |b| == 9 && 0 <= i < 3 && 0 <= j < 3 && 0 <= k < 9
    ensures |Cross(a[3 * i..3 * i + 3], b[3 * j..3 * j + 3])| == 9
    ensures Cross(a[3 * i..3 * i + 3], b[3 * j..3 * j + 3])[k] == [a[3 * i + k / 3], b[3 * j + k % 3]]
  {
    var rs, cs := a[3 * i..3 * i + 3], b[3 * j..3 * j + 3];
    var x, y := k / 3, k % 3;
    assert |cs| == 3 && x * |cs| + y == k;
    CrossAt(rs, cs, x, y);
  }

  lemma DivThree(a: int, x: int)
    requires 0 <= x < 3
    ensures (3 * a + x) / 3 == a && (3 * a + x) % 3 == x
  {
  }

  /** The k-th box of a square sits in row `x` and column `y` of that square, and `k` is its position in `cross(rs, cs)`. */
  lemma SquareCell(i: int, j: int, k: int) returns (x: int, y: int)
    requires 0 <= i < 3 && 0 <= j < 3 && 0 <= k < 9
    ensures 0 <= x < 3 && 0 <= y < 3 && k == x * 3 + y && x == k / 3 && y == k % 3
    ensures UnitBox(18 + 3 * i + j, k) == At(3 * i + x, 3 * j + y)
  {
    x, y := k / 3, k % 3;
    var q := 3 * i + j;
    assert q / 3 == i && q % 3 == j;
  }

  /** The two diagonal units pair row k with column k, and row k with column 8 - k (`cols[::-1]`). */
  lemma DiagonalUnitsAreSource(k: int)
    requires 0 <= k < 9
    ensures Names(Unit(27))[k] == [Rows[k], Cols[k]]
    ensures Names(Unit(28))[k] == [Rows[k], Cols[8 - k]]
  {
    NameAt(k, k);
    NameAt(k, 8 - k);
    assert Unit(27)[k] == At(k, k) && Unit(28)[k] == At(k, 8 - k);
  }

  /** The `i`-th triple of row letters: "ABC", "DEF" or "GHI". */
  function RowTriple(i: int): string
    requires 0 <= i < 3
  {
    Rows[3 * i..3 * i + 3]
  }

  /** The `j`-th triple of column digits: "123", "456" or "789". */
  function ColTriple(j: int): string
    requires 0 <= j < 3
  {
    Cols[3 * j..3 * j + 3]
  }

  /**
   `unitlist`: the nine row units, the nine column units, the nine squares
   and the two diagonals, in that order, each with its boxes in the order
   solution.py builds them.
   */
  function UnitList(): (units: seq<seq<Box>>)
    ensures |units| == 29 && forall u :: 0 <= u < 29 ==> |units[u]| == 9
    ensures forall r :: 0 <= r < 9 ==> Names(units[r]) == Cross([Rows[r]], Cols)
    ensures forall c :: 0 <= c < 9 ==> Names(units[9 + c]) == Cross(Rows, [Cols[c]])
    ensures forall i, j :: 0 <= i < 3 && 0 <= j < 3 ==> Names(units[18 + 3 * i + j]) == Cross(RowTriple(i), ColTriple(j))
    ensures forall k :: 0 <= k < 9 ==> Names(units[27])[k] == [Rows[k], Cols[k]] && Names(units[28])[k] == [Rows[k], Cols[8 - k]]
  {
    RowUnitsAreSource();
    ColumnUnitsAreSource();
    SquareUnitsAreSource();
    DiagonalsAreSource();
    seq(29, u requires 0 <= u < 29 => Unit(u))
  }

  lemma RowUnitsAreSource()
    ensures forall r :: 0 <= r < 9 ==> Names(Unit(r)) == Cross([Rows[r]], Cols)
  {
    forall r | 0 <= r < 9
      ensures Names(Unit(r)) == Cross([Rows[r]], Cols)
    {
      RowUnitIsSource(r);
    }
  }

  lemma ColumnUnitsAreSource()
    ensures forall c :: 0 <= c < 9 ==> Names(Unit(9 + c)) == Cross(Rows, [Cols[c]])
  {
    forall c | 0 <= c < 9
      ensures Names(Unit(9 + c)) == Cross(Rows, [Cols[c]])
    {
      ColumnUnitIsSource(c);
    }
  }

  lemma SquareUnitsAreSource()
    ensures forall i, j :: 0 <= i < 3 && 0 <= j < 3 ==> Names(Unit(18 + 3 * i + j)) == Cross(RowTriple(i), ColTriple(j))
  {
    forall i, j | 0 <= i < 3 && 0 <= j < 3
      ensures Names(Unit(18 + 3 * i + j)) == Cross(RowTriple(i), ColTriple(j))
    {
      SquareUnitIsSource(i, j);
    }
  }

  lemma DiagonalsAreSource()
    ensures forall k :: 0 <= k < 9 ==> Names(Unit(27))[k] == [Rows[k], Cols[k]] && Names(Unit(28))[k] == [Rows[k], Cols[8 - k]]
  {
    forall k | 0 <= k < 9
      ensures Names(Unit(27))[k] == [Rows[k], Cols[k]] && Names(Unit(28))[k] == [Rows[k], Cols[8 - k]]
    {
      DiagonalUnitsAreSource(k);
    }
  }

  /** `units[s]`: the units containing box `s`, in unit-list order. */
  function UnitsOf(s: Box): (r: seq<UnitId>)
    ensures forall u: UnitId :: u in r <==> s in Unit(u)
  {
    UnitsFrom(s, 0)
  }

  function UnitsFrom(s: Box, u: nat): (r: seq<UnitId>)
    decreases 29 - u, s
    ensures forall v: UnitId :: v in r <==> u <= v && s in Unit(v)
  {
    if u >= 29 then []
    else
      UnitMembership(s, u);
      (if InUnit(s, u) then [u as UnitId] else []) + UnitsFrom(s, u + 1)
  }

  /** Two different boxes that share a unit. */
  predicate IsPeer(a: Box, b: Box)
  {
    a != b && exists u :: 0 <= u < 29 && InUnit(a, u) && InUnit(b, u)
  }

  /** `peers[s]`: every box of every unit of `s`, except `s` itself. */
  function Peers(s: Box): (r: set<Box>)
    ensures s !in r
    ensures forall b: Box :: b in r <==> IsPeer(s, b)
  {
    var us := UnitsOf(s);
    var r := (set u, b | u in us && b in Unit(u) :: b) - {s};
    assert forall b: Box :: b in r <==> IsPeer(s, b) by {
      forall b: Box
        ensures b in r <==> IsPeer(s, b)
      {
        if IsPeer(s, b) {
          var u :| 0 <= u < 29 && InUnit(s, u) && InUnit(b, u);
          UnitMembership(s, u);
          UnitMembership(b, u);
        }
        if b in r {
          var u :| u in us && b in Unit(u);
          UnitMembership(s, u);
          UnitMembership(b, u);
        }
      }
    }
    r
  }

  /** The peer relation is symmetric. */
  lemma PeersSymmetric(a: Box, b: Box)
    ensures b in Peers(a) <==> a in Peers(b)
  {
    if IsPeer(a, b) {
      var u :| 0 <= u < 29 && InUnit(a, u) && InUnit(b, u);
      assert IsPeer(b, a);
    }
    if IsPeer(b, a) {
      var u :| 0 <= u < 29 && InUnit(b, u) && InUnit(a, u);
      assert IsPeer(a, b);
    }
  }

  /** Two different boxes of one unit are peers. */
  lemma UnitMatesArePeers(u: UnitId, a: Box, b: Box)
    requires a in Unit(u) && b in Unit(u) && a != b
    ensures IsPeer(a, b) && IsPeer(b, a)
  {
    UnitMembership(a, u);
    UnitMembership(b, u);
  }
}
