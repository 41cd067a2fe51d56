/** The flood reveal (`uncover`) as a reference definition: the cells it
    uncovers are the ends of the paths that start at the clicked cell, step
    from a cell to one of its neighbours, and pass only through cells that
    show 0. The clicked cell is always expanded, whatever it shows. */
module Reveal {
  import opened Grid
  import opened Board

  /** A path the flood travels from `c`: it starts at `c`, every step goes to
      a neighbour, and every cell strictly between the two ends shows 0. */
  ghost predicate IsFloodPath(n: int, z: seq<int>, c: int, p: seq<int>)
  {
    && n > 0
    && |z| == n * n
    && |p| >= 1
    && p[0] == c
    && (forall i :: 0 <= i < |p| ==> 0 <= p[i] < n * n)
    && (forall i :: 0 <= i < |p| - 1 ==> Adjacent(n, p[i], p[i + 1]))
    && (forall i :: 0 < i < |p| - 1 ==> z[p[i]] == 0)
  }

  ghost predicate Reaches(n: int, z: seq<int>, c: int, t: int)
  {
    exists p :: IsFloodPath(n, z, c, p) && p[|p| - 1] == t
  }

  /** The cells uncovered by a flood reveal started at `c`. */
  ghost function Cascade(n: int, z: seq<int>, c: int): set<int>
    requires n > 0 && |z| == n * n && 0 <= c < n * n
  {
    set t | 0 <= t < n * n && Reaches(n, z, c, t)
  }

  /** The flood uncovers the clicked cell and all of its neighbours. */
  lemma CascadeHasOriginAndRing(n: int, z: seq<int>, c: int)
    requires n > 0 && |z| == n * n && 0 <= c < n * n
    ensures c in Cascade(n, z, c)
    ensures Neighbours(n, c) <= Cascade(n, z, c)
  {
    assert IsFloodPath(n, z, c, [c]);
    forall t | t in Neighbours(n, c) ensures t in Cascade(n, z, c) {
      assert IsFloodPath(n, z, c, [c, t]);
    }
  }

  /** Every uncovered cell that shows 0 has all its neighbours uncovered. */
  lemma CascadeClosed(n: int, z: seq<int>, c: int, x: int)
    requires n > 0 && |z| == n * n && 0 <= c < n * n
    requires x in Cascade(n, z, c) && z[x] == 0
    ensures Neighbours(n, x) <= Cascade(n, z, c)
  {
    var p :| IsFloodPath(n, z, c, p) && p[|p| - 1] == x;
    forall t | t in Neighbours(n, x) ensures t in Cascade(n, z, c) {
      assert IsFloodPath(n, z, c, p + [t]);
    }
  }

  /** The flood is the least such set: any set of slots that holds `c` and
      its neighbours and is closed under expanding 0-cells holds the whole
      flood. */
  lemma CascadeLeast(n: int, z: seq<int>, c: int, s: set<int>)
    requires n > 0 && |z| == n * n && 0 <= c < n * n
    requires c in s && Neighbours(n, c) <= s
    requires forall x :: x in s && 0 <= x < n * n && z[x] == 0 ==> Neighbours(n, x) <= s
    ensures Cascade(n, z, c) <= s
  {
    forall t | t in Cascade(n, z, c) ensures t in s {
      var p :| IsFloodPath(n, z, c, p) && p[|p| - 1] == t;
      PathInside(n, z, c, s, p);
    }
  }

  lemma {:induction false} PathInside(n: int, z: seq<int>, c: int, s: set<int>, p: seq<int>)
    requires IsFloodPath(n, z, c, p)
    requires c in s && Neighbours(n, c) <= s
    requires forall x :: x in s && 0 <= x < n * n && z[x] == 0 ==> Neighbours(n, x) <= s
    ensures p[|p| - 1] in s
  {
    if |p| > 1 {
      var q := p[..|p| - 1];
      assert IsFloodPath(n, z, c, q);
      PathInside(n, z, c, s, q);
      var y := q[|q| - 1];
      assert p[|p| - 1] in Neighbours(n, y);
    }
  }

  /** Besides the clicked cell and its neighbours, the flood uncovers only
      neighbours of uncovered cells that show 0. */
  lemma CascadeShape(n: int, z: seq<int>, c: int, t: int)
    requires n > 0 && |z| == n * n && 0 <= c < n * n
    requires t in Cascade(n, z, c)
    ensures || t == c
            || t in Neighbours(n, c)
            || exists y :: y in Cascade(n, z, c) && 0 <= y < n * n && z[y] == 0 && t in Neighbours(n, y)
  {
    var p :| IsFloodPath(n, z, c, p) && p[|p| - 1] == t;
    if |p| > 2 {
      var q := p[..|p| - 1];
      assert IsFloodPath(n, z, c, q);
      var y := q[|q| - 1];
      assert y in Cascade(n, z, c) && z[y] == 0 && t in Neighbours(n, y);
    } else if |p| == 2 {
      assert t in Neighbours(n, c);
    }
  }

  /** On a finished board, the flood from a cell showing 0 never reaches a
      mine: every flooded cell is the clicked one or a neighbour of a cell
      whose count of adjacent mines is 0. */
  lemma CascadeAvoidsMines(n: int, z: seq<int>, c: int)
    requires Counted(n, z) && 0 <= c < n * n && z[c] == 0
    ensures Cascade(n, z, c) !! MineSlots(z)
  {
    forall t | t in Cascade(n, z, c) ensures t !in MineSlots(z) {
      CascadeShape(n, z, c, t);
      if t != c {
        var y :| (y == c || (y in Cascade(n, z, c) && 0 <= y < n * n && z[y] == 0)) && t in Neighbours(n, y);
        assert AdjacentMines(n, MineSlots(z), y) == 0;
        assert t !in Neighbours(n, y) * MineSlots(z);
      }
    }
  }

  /** The search state of the flood fill: `done` holds `c`, and the
      neighbours of `c` and of every 0-cell in `done` are in `done` or still
      pending in `todo`. */
  ghost predicate Expanded(n: int, z: seq<int>, c: int, done: set<int>, todo: set<int>)
    requires n > 0 && |z| == n * n && 0 <= c < n * n
  {
    && c in done
    && (forall x :: x in done + todo ==> 0 <= x < n * n)
    && Neighbours(n, c) <= done + todo
    && forall x :: x in done && 0 <= x < n * n && z[x] == 0 ==> Neighbours(n, x) <= done + todo
  }

  /** One step of the search keeps it expanded: a pending slot already done
      is dropped; a new one moves to `done`, and when it shows 0 its
      neighbours become pending. */
  lemma ExpandStep(n: int, z: seq<int>, c: int, done: set<int>, todo: set<int>, x: int)
    requires n > 0 && |z| == n * n && 0 <= c < n * n
    requires Expanded(n, z, c, done, todo) && x in todo
    ensures x in done ==> Expanded(n, z, c, done, todo - {x})
    ensures x !in done && z[x] != 0 ==> Expanded(n, z, c, done + {x}, todo - {x})
    ensures x !in done && z[x] == 0 ==> Expanded(n, z, c, done + {x}, todo - {x} + Neighbours(n, x))
  {
  }

  /** A search with nothing pending has found exactly the flood, provided
      everything it found lies in the flood. */
  lemma ExpandedIsCascade(n: int, z: seq<int>, c: int, done: set<int>)
    requires n > 0 && |z| == n * n && 0 <= c < n * n
    requires Expanded(n, z, c, done, {}) && done <= Cascade(n, z, c)
    ensures done == Cascade(n, z, c)
  {
    assert done + {} == done;
    CascadeLeast(n, z, c, done);
  }
}
