/** Slots and the 8-neighbourhood of an N×N minesweeper board.

    A cell is addressed either by its (column, row) pair or by its flat slot
    index `column + row * N`; the column of a slot is `slot % N` and its row
    `slot / N`. The source divides with Python 2 integer division, which for
    a non-negative slot and a positive N agrees with Dafny's `/` and `%`. */
module Grid {

  /** The column of a slot (`slot % sizeOfGrid`). */
  function Col(n: int, s: int): (c: int)
    requires n > 0
    ensures 0 <= c < n
  {
    s % n
  }

  /** The row of a slot (`slot / sizeOfGrid`); together with the column it
      recovers the slot. */
  function Row(n: int, s: int): (r: int)
    requires n > 0 && 0 <= s < n * n
    ensures 0 <= r < n
    ensures s == r * n + Col(n, s)
  {
    RowBelowSize(n, s);
    s / n
  }

  /** The slot of the cell in column `c` and row `r` (`x + y * sizeOfGrid`). */
  function SlotOf(n: int, c: int, r: int): (s: int)
    requires 0 <= c < n && 0 <= r < n
    ensures 0 <= s < n * n
    ensures Col(n, s) == c && Row(n, s) == r
  {
    SlotBelowArea(n, c, r);
    CoordsOf(n, c + r * n, c, r);
    c + r * n
  }

  lemma MulLeftMono(a: int, b: int, k: int)
    requires 0 <= k && a <= b
    ensures a * k <= b * k
  {
  }

  lemma RowBelowSize(n: int, s: int)
    requires n > 0 && 0 <= s < n * n
    ensures 0 <= s / n < n
  {
    if s / n >= n {
      MulLeftMono(n, s / n, n);
    }
  }

  lemma SlotBelowArea(n: int, c: int, r: int)
    requires 0 <= c < n && 0 <= r < n
    ensures 0 <= c + r * n < n * n
  {
    MulLeftMono(r, n - 1, n);
    MulLeftMono(0, r, n);
  }

  /** Division with remainder is unique: a slot written as `r * n + c` with
      `0 <= c < n` has column `c` and row `r`. */
  lemma CoordsOf(n: int, s: int, c: int, r: int)
    requires n > 0 && 0 <= c < n && s == r * n + c
    ensures s % n == c && s / n == r
  {
    var q, m := s / n, s % n;
    assert s == q * n + m;
    assert (r - q) * n == m - c;
    if r - q >= 1 {
      MulLeftMono(1, r - q, n);
    } else if r - q <= -1 {
      MulLeftMono(r - q, -1, n);
    }
  }

  /** Two slots with the same column and row are the same slot. */
  lemma SameCoordsSameSlot(n: int, s: int, t: int)
    requires n > 0 && 0 <= s < n * n && 0 <= t < n * n
    requires Col(n, s) == Col(n, t) && Row(n, s) == Row(n, t)
    ensures s == t
  {
  }

  /** The uniform reference definition of adjacency: `t` is a different
      in-range slot whose column and row each differ from those of `s` by at
      most one. */
  predicate Adjacent(n: int, s: int, t: int)
    requires n > 0 && 0 <= s < n * n
  {
    && 0 <= t < n * n
    && t != s
    && -1 <= Col(n, t) - Col(n, s) <= 1
    && -1 <= Row(n, t) - Row(n, s) <= 1
  }

  /** The in-bounds 8-neighbourhood of `s`, by filtering. */
  function Neighbours(n: int, s: int): set<int>
    requires n > 0 && 0 <= s < n * n
  {
    set t | 0 <= t < n * n && Adjacent(n, s, t)
  }

  /** The source's neighbour function `get_surrounding_slots`: four corner
      cases, four edge cases and the interior case, each a list literal. */
  function SurroundingSlots(n: int, s: int): seq<int>
  {
    if s == 0 then [1, 1 + n, n]
    else if s == n - 1 then [s - 1, s + n - 1, s + n]
    else if s == n * n - n then [s - n, s - n + 1, s + 1]
    else if s == n * n - 1 then [s - 1, s - n, s - n - 1]
    else if n != 0 && s / n == 0 then [s - 1, s + 1, s + n - 1, s + n, s + n + 1]
    else if n != 0 && s / n == n - 1 then [s - 1, s + 1, s - n + 1, s - n, s - n - 1]
    else if n != 0 && s % n == 0 then [s - n, s + n, s - n + 1, s + 1, s + n + 1]
    else if n != 0 && s % n == n - 1 then [s - 1, s - n - 1, s - n, s + n - 1, s + n]
    else [s - n - 1, s - n, s - n + 1, s - 1, s + 1, s + n - 1, s + n, s + n + 1]
  }

  predicate OnBorder(n: int, x: int) { x == 0 || x == n - 1 }

  /** How many neighbours a cell has: 3 in a corner, 5 on an edge, 8 inside. */
  function NeighbourhoodSize(n: int, s: int): nat
    requires n > 0 && 0 <= s < n * n
  {
    var onCol, onRow := OnBorder(n, Col(n, s)), OnBorder(n, Row(n, s));
    if onCol && onRow then 3 else if onCol || onRow then 5 else 8
  }

  predicate Distinct(xs: seq<int>)
  {
    forall i, j :: 0 <= i < j < |xs| ==> xs[i] != xs[j]
  }

  /** Moving by at most one column and one row inside the board. */
  lemma Shift(n: int, s: int, dc: int, dr: int)
    requires n > 0 && 0 <= s < n * n
    requires -1 <= dc <= 1 && -1 <= dr <= 1
    requires 0 <= Col(n, s) + dc < n && 0 <= Row(n, s) + dr < n
    ensures 0 <= s + dr * n + dc < n * n
    ensures Col(n, s + dr * n + dc) == Col(n, s) + dc
    ensures Row(n, s + dr * n + dc) == Row(n, s) + dr
  {
    var c, r := Col(n, s), Row(n, s);
    var t := s + dr * n + dc;
    assert t == (c + dc) + (r + dr) * n;
    SlotBelowArea(n, c + dc, r + dr);
    CoordsOf(n, t, c + dc, r + dr);
  }

  /** The difference of two slots in coordinates. */
  lemma Displacement(n: int, s: int, t: int)
    requires n > 0 && 0 <= s < n * n && 0 <= t < n * n
    ensures t == s + (Row(n, t) - Row(n, s)) * n + (Col(n, t) - Col(n, s))
  {
  }

  /** Where each branch condition of `SurroundingSlots` puts the slot. */
  lemma BranchCoords(n: int, s: int)
    requires n >= 2 && 0 <= s < n * n
    ensures s == 0 <==> Col(n, s) == 0 && Row(n, s) == 0
    ensures s == n - 1 <==> Col(n, s) == n - 1 && Row(n, s) == 0
    ensures s == n * n - n <==> Col(n, s) == 0 && Row(n, s) == n - 1
    ensures s == n * n - 1 <==> Col(n, s) == n - 1 && Row(n, s) == n - 1
    ensures s / n == Row(n, s) && s % n == Col(n, s)
  {
    var c, r := Col(n, s), Row(n, s);
    if r == n - 1 {
      assert s == (n - 1) * n + c;
    }
    if s == 0 {
      CoordsOf(n, s, 0, 0);
    }
    if s == n - 1 {
      CoordsOf(n, s, n - 1, 0);
    }
    if s == n * n - n {
      CoordsOf(n, s, 0, n - 1);
    }
    if s == n * n - 1 {
      CoordsOf(n, s, n - 1, n - 1);
    }
  }

  /** The coordinates of the eight surrounding positions that lie on the board. */
  lemma Ring(n: int, s: int)
    requires n > 0 && 0 <= s < n * n
    ensures var c, r := Col(n, s), Row(n, s);
      && (c > 0 && r > 0 ==> 0 <= s - n - 1 < n * n && Col(n, s - n - 1) == c - 1 && Row(n, s - n - 1) == r - 1)
      && (r > 0 ==> 0 <= s - n < n * n && Col(n, s - n) == c && Row(n, s - n) == r - 1)
      && (c < n - 1 && r > 0 ==> 0 <= s - n + 1 < n * n && Col(n, s - n + 1) == c + 1 && Row(n, s - n + 1) == r - 1)
      && (c > 0 ==> 0 <= s - 1 < n * n && Col(n, s - 1) == c - 1 && Row(n, s - 1) == r)
      && (c < n - 1 ==> 0 <= s + 1 < n * n && Col(n, s + 1) == c + 1 && Row(n, s + 1) == r)
      && (c > 0 && r < n - 1 ==> 0 <= s + n - 1 < n * n && Col(n, s + n - 1) == c - 1 && Row(n, s + n - 1) == r + 1)
      && (r < n - 1 ==> 0 <= s + n < n * n && Col(n, s + n) == c && Row(n, s + n) == r + 1)
      && (c < n - 1 && r < n - 1 ==> 0 <= s + n + 1 < n * n && Col(n, s + n + 1) == c + 1 && Row(n, s + n + 1) == r + 1)
  {
    var c, r := Col(n, s), Row(n, s);
    if c > 0 && r > 0 { Shift(n, s, -1, -1); }
    if r > 0 { Shift(n, s, 0, -1); }
    if c < n - 1 && r > 0 { Shift(n, s, 1, -1); }
    if c > 0 { Shift(n, s, -1, 0); }
    if c < n - 1 { Shift(n, s, 1, 0); }
    if c > 0 && r < n - 1 { Shift(n, s, -1, 1); }
    if r < n - 1 { Shift(n, s, 0, 1); }
    if c < n - 1 && r < n - 1 { Shift(n, s, 1, 1); }
  }

  /** An adjacent slot is one of the eight surrounding positions. */
  lemma AdjacentIsRing(n: int, s: int, t: int)
    requires n > 0 && 0 <= s < n * n && Adjacent(n, s, t)
    ensures var c, r := Col(n, s), Row(n, s);
      || (t == s - n - 1 && c > 0 && r > 0)
      || (t == s - n && r > 0)
      || (t == s - n + 1 && c < n - 1 && r > 0)
      || (t == s - 1 && c > 0)
      || (t == s + 1 && c < n - 1)
      || (t == s + n - 1 && c > 0 && r < n - 1)
      || (t == s + n && r < n - 1)
      || (t == s + n + 1 && c < n - 1 && r < n - 1)
  {
    Displacement(n, s, t);
    var dr := Row(n, t) - Row(n, s);
    if dr == -1 {
      assert t == s - n + (Col(n, t) - Col(n, s));
    } else if dr == 0 {
      assert t == s + (Col(n, t) - Col(n, s));
    } else {
      assert t == s + n + (Col(n, t) - Col(n, s));
    }
  }

  lemma SurroundingAreAdjacent(n: int, s: int)
    requires n >= 2 && 0 <= s < n * n
    ensures forall t :: t in SurroundingSlots(n, s) ==> Adjacent(n, s, t)
  {
    BranchCoords(n, s);
    Ring(n, s);
  }

  lemma AdjacentAreSurrounding(n: int, s: int)
    requires n >= 2 && 0 <= s < n * n
    ensures forall t :: Adjacent(n, s, t) ==> t in SurroundingSlots(n, s)
  {
    BranchCoords(n, s);
    forall t | Adjacent(n, s, t) ensures t in SurroundingSlots(n, s) {
      AdjacentIsRing(n, s, t);
    }
  }

  lemma SurroundingShape(n: int, s: int)
    requires n >= 2 && 0 <= s < n * n
    ensures Distinct(SurroundingSlots(n, s))
    ensures |SurroundingSlots(n, s)| == NeighbourhoodSize(n, s)
  {
    BranchCoords(n, s);
  }

  /** The source's corner/edge branching yields exactly the uniform
      in-bounds 8-neighbourhood, without repetitions, and has 3, 5 or 8
      members in a corner, on an edge or inside. */
  lemma SurroundingSlotsExact(n: int, s: int)
    requires n >= 2 && 0 <= s < n * n
    ensures forall t :: t in SurroundingSlots(n, s) <==> Adjacent(n, s, t)
    ensures Distinct(SurroundingSlots(n, s))
    ensures |SurroundingSlots(n, s)| == NeighbourhoodSize(n, s)
  {
    SurroundingAreAdjacent(n, s);
    AdjacentAreSurrounding(n, s);
    SurroundingShape(n, s);
  }

  /** The slots listed in a sequence. */
  function Elems(xs: seq<int>): set<int>
  {
    set x | x in xs
  }

  /** A list without repetitions has as many distinct members as entries. */
  lemma {:induction false} DistinctCard(xs: seq<int>)
    requires Distinct(xs)
    ensures |Elems(xs)| == |xs|
  {
    if xs != [] {
      var ys := xs[..|xs| - 1];
      assert Elems(xs) == Elems(ys) + {xs[|xs| - 1]};
      DistinctCard(ys);
    }
  }

  /** The source's neighbour list and the filtered neighbourhood hold the
      same slots, and there are at most eight of them. */
  lemma NeighboursAreSurrounding(n: int, s: int)
    requires n >= 2 && 0 <= s < n * n
    ensures Neighbours(n, s) == Elems(SurroundingSlots(n, s))
    ensures |Neighbours(n, s)| == NeighbourhoodSize(n, s) <= 8
  {
    SurroundingSlotsExact(n, s);
    DistinctCard(SurroundingSlots(n, s));
  }
}
