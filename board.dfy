/** The board layout: which slots hold mines and which adjacent-mine count
    every other slot shows. A board is a sequence `z` of grid values indexed
    by slot, where 9 marks a mine and 0..8 is a warning count. */
module Board {
  import opened Grid

  /** The grid value that marks a mine. */
  const Mine := 9

  /** The slots that hold a mine. */
  function MineSlots(z: seq<int>): set<int>
  {
    set s | 0 <= s < |z| && z[s] == Mine
  }

  /** The number of mines among the neighbours of `s`. */
  function AdjacentMines(n: int, mines: set<int>, s: int): nat
    requires n > 0 && 0 <= s < n * n
  {
    |Neighbours(n, s) * mines|
  }

  /** A finished board: every cell that is not a mine holds the number of
      mines among its neighbours. */
  predicate Counted(n: int, z: seq<int>)
  {
    && n > 0
    && |z| == n * n
    && forall s :: 0 <= s < |z| && z[s] != Mine ==> z[s] == AdjacentMines(n, MineSlots(z), s)
  }

  /** Mine placement: the slots of `placed` become mines, every other slot
      keeps its value. */
  function WithMines(z: seq<int>, placed: set<int>): seq<int>
  {
    seq(|z|, s requires 0 <= s < |z| => if s in placed then Mine else z[s])
  }

  /** The count pass: every slot that is not a mine is overwritten with its
      adjacent-mine count. */
  function Annotate(n: int, z: seq<int>): seq<int>
    requires n > 0 && |z| == n * n
  {
    seq(|z|, s requires 0 <= s < |z| =>
      if z[s] == Mine then Mine else AdjacentMines(n, MineSlots(z), s))
  }

  /** A board has at most as many mines as slots. */
  lemma {:induction false} MinesFit(z: seq<int>)
    ensures |MineSlots(z)| <= |z|
  {
    if z != [] {
      var y := z[..|z| - 1];
      MinesFit(y);
      assert MineSlots(z) == MineSlots(y) + (if z[|z| - 1] == Mine then {|z| - 1} else {});
    }
  }

  lemma SubsetCard(a: set<int>, b: set<int>)
    requires a <= b
    ensures |a| <= |b|
  {
    assert b == a + (b - a);
  }

  /** Writing a mine into a slot that held none adds exactly that slot to
      the mine set. */
  lemma AddMine(z: seq<int>, s: int)
    requires 0 <= s < |z| && z[s] != Mine
    ensures MineSlots(z[s := Mine]) == MineSlots(z) + {s}
    ensures |MineSlots(z[s := Mine])| == |MineSlots(z)| + 1
  {
    assert MineSlots(z[s := Mine]) == MineSlots(z) + {s};
  }

  /** Overwriting a slot that is not a mine with a value that is not 9
      leaves the mine set as it was. */
  lemma KeepMines(z: seq<int>, s: int, v: int)
    requires 0 <= s < |z| && z[s] != Mine && v != Mine
    ensures MineSlots(z[s := v]) == MineSlots(z)
  {
    assert MineSlots(z[s := v]) == MineSlots(z);
  }

  /** The count pass never writes a 9, so it keeps the mines where they are
      and leaves a board in which every count is right and lies in [0, 8]. */
  lemma AnnotateCounted(n: int, z: seq<int>)
    requires n >= 2 && |z| == n * n
    ensures MineSlots(Annotate(n, z)) == MineSlots(z)
    ensures Counted(n, Annotate(n, z))
    ensures forall s :: 0 <= s < |z| && z[s] != Mine ==> 0 <= Annotate(n, z)[s] <= 8
  {
    var a := Annotate(n, z);
    forall s | 0 <= s < |z| && z[s] != Mine
      ensures a[s] == AdjacentMines(n, MineSlots(z), s) <= 8
    {
      NeighboursAreSurrounding(n, s);
      SubsetCard(Neighbours(n, s) * MineSlots(z), Neighbours(n, s));
    }
    assert MineSlots(a) == MineSlots(z);
  }

  /** On a finished board every warning lies in [0, 8]. */
  lemma CountsInRange(n: int, z: seq<int>, s: int)
    requires n >= 2 && Counted(n, z) && 0 <= s < |z| && z[s] != Mine
    ensures 0 <= z[s] <= 8
  {
    NeighboursAreSurrounding(n, s);
    SubsetCard(Neighbours(n, s) * MineSlots(z), Neighbours(n, s));
  }

  /** A 3×3 board with mines in two opposite corners: the centre shows 2. */
  lemma CentreCountExample()
    ensures Annotate(3, [9, 0, 0, 0, 0, 0, 0, 0, 9])[4] == 2
  {
    var z := [9, 0, 0, 0, 0, 0, 0, 0, 9];
    assert MineSlots(z) == {0, 8};
    assert Adjacent(3, 4, 0) && Adjacent(3, 4, 8);
    assert Neighbours(3, 4) * {0, 8} == {0, 8};
  }
}
