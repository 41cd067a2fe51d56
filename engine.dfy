/** The game engine of minesweeper.py as a class: the grid of values, the
    uncovered and flagged arrays indexed [column, row], and the `play` flag,
    with the source's loops as methods. */
module Engine {
  import opened Grid
  import opened Board
  import opened Reveal
  import opened Rules

  class Game {
    /** `sizeOfGrid` */
    const size: int
    /** `numberOfMines` */
    const mines: nat
    /** 9 is a mine, 0..8 a warning */
    const grid: array2<int>
    const uncovered: array2<bool>
    const flagged: array2<bool>
    /** while false every click is ignored */
    var play: bool

    ghost predicate Valid()
    {
      && size >= 2
      && grid.Length0 == size && grid.Length1 == size
      && uncovered.Length0 == size && uncovered.Length1 == size
      && flagged.Length0 == size && flagged.Length1 == size
      && uncovered != flagged
    }

    /** The grid value of a slot. */
    function At(s: int): int
      reads grid
      requires Valid() && 0 <= s < size * size
    {
      grid[Col(size, s), Row(size, s)]
    }

    /** The grid as a board indexed by slot. */
    ghost function Cells(): (z: seq<int>)
      reads grid
      requires Valid()
      ensures |z| == size * size
      ensures forall s :: 0 <= s < size * size ==> z[s] == At(s)
    {
      seq(size * size, s requires Valid() && 0 <= s < size * size reads grid => At(s))
    }

    ghost function Shown(): set<int>
      reads uncovered
      requires Valid()
    {
      set s | 0 <= s < size * size && uncovered[Col(size, s), Row(size, s)]
    }

    ghost function Flags(): set<int>
      reads flagged
      requires Valid()
    {
      set s | 0 <= s < size * size && flagged[Col(size, s), Row(size, s)]
    }

    /** What the player sees: uncovered and flagged slots and the play flag. */
    ghost function State(): Session
      reads this, uncovered, flagged
      requires Valid()
    {
      Session(Shown(), Flags(), play)
    }

    /** Writes one grid value (`grid[s % sizeOfGrid][s / sizeOfGrid] = v`). */
    method SetValue(s: int, v: int)
      requires Valid() && 0 <= s < size * size
      modifies grid
      ensures Cells() == old(Cells())[s := v]
    {
      grid[Col(size, s), Row(size, s)] := v;
      forall t | 0 <= t < size * size && t != s ensures At(t) == old(At(t)) {
        if Col(size, t) == Col(size, s) && Row(size, t) == Row(size, s) {
          SameCoordsSameSlot(size, t, s);
        }
      }
    }

    /** Uncovers one slot (`uncovered[s % sizeOfGrid][s / sizeOfGrid] = True`). */
    method MarkUncovered(s: int)
      requires Valid() && 0 <= s < size * size
      modifies uncovered
      ensures Shown() == old(Shown()) + {s}
    {
      uncovered[Col(size, s), Row(size, s)] := true;
      forall t | 0 <= t < size * size && t != s
        ensures uncovered[Col(size, t), Row(size, t)] == old(uncovered[Col(size, t), Row(size, t)])
      {
        if Col(size, t) == Col(size, s) && Row(size, t) == Row(size, s) {
          SameCoordsSameSlot(size, t, s);
        }
      }
    }

    /** Sets or clears one flag (`flagged[s % sizeOfGrid][s / sizeOfGrid] = v`). */
    method SetFlag(s: int, v: bool)
      requires Valid() && 0 <= s < size * size
      modifies flagged
      ensures Flags() == if v then old(Flags()) + {s} else old(Flags()) - {s}
    {
      flagged[Col(size, s), Row(size, s)] := v;
      forall t | 0 <= t < size * size && t != s
        ensures flagged[Col(size, t), Row(size, t)] == old(flagged[Col(size, t), Row(size, t)])
      {
        if Col(size, t) == Col(size, s) && Row(size, t) == Row(size, s) {
          SameCoordsSameSlot(size, t, s);
        }
      }
    }

    /** The module-level state before mines are placed: an all-zero grid,
        nothing uncovered or flagged, clicks not yet accepted. */
    constructor (n: int, m: nat)
      requires n >= 2
      ensures Valid() && size == n && mines == m
      ensures fresh(grid) && fresh(uncovered) && fresh(flagged)
      ensures Cells() == seq(n * n, _ => 0)
      ensures State() == Session({}, {}, false)
    {
      size, mines := n, m;
      grid := new int[n, n]((c, r) => 0);
      uncovered := new bool[n, n]((c, r) => false);
      flagged := new bool[n, n]((c, r) => false);
      play := false;
      new;
      assert Shown() == {};
      assert Flags() == {};
    }

    /** `get_surrounding_mines`: the number of mines around a slot. */
    method SurroundingMines(slot: int) returns (count: int)
      requires Valid() && 0 <= slot < size * size
      ensures count == AdjacentMines(size, MineSlots(Cells()), slot)
      ensures 0 <= count <= 8
    {
      var slots := SurroundingSlots(size, slot);
      SurroundingSlotsExact(size, slot);
      NeighboursAreSurrounding(size, slot);
      ghost var mineSet := MineSlots(Cells());
      count := 0;
      var i := 0;
      while i < |slots|
        invariant 0 <= i <= |slots|
        invariant count == |Elems(slots[..i]) * mineSet|
      {
        var t := slots[i];
        assert Adjacent(size, slot, t);
        assert t !in Elems(slots[..i]);
        assert Elems(slots[..i + 1]) == Elems(slots[..i]) + {t};
        if grid[Col(size, t), Row(size, t)] == Mine {
          assert Elems(slots[..i + 1]) * mineSet == Elems(slots[..i]) * mineSet + {t};
          count := count + 1;
        } else {
          assert Elems(slots[..i + 1]) * mineSet == Elems(slots[..i]) * mineSet;
        }
        i := i + 1;
      }
      assert slots[..i] == slots;
      SubsetCard(Neighbours(size, slot) * mineSet, Neighbours(size, slot));
    }

    /** Rejection-sampled mine placement: each of the `mines` rounds draws
        slots until one holds no mine and puts a mine there. The random
        draws are the sequence `draws`; when it runs out before every mine
        is placed, placement stops with `placed` false. */
    method PlaceMines(draws: seq<int>) returns (used: nat, placed: bool)
      requires Valid()
      requires forall k :: 0 <= k < |draws| ==> 0 <= draws[k] < size * size
      modifies grid
      ensures used <= |draws|
      ensures Cells() == WithMines(old(Cells()), Elems(draws[..used]))
      ensures placed ==> |MineSlots(Cells())| == |MineSlots(old(Cells()))| + mines
      ensures placed ==> |MineSlots(old(Cells()))| + mines <= size * size
      ensures !placed ==> used == |draws| && |MineSlots(Cells())| < |MineSlots(old(Cells()))| + mines
    {
      ghost var z0 := Cells();
      used, placed := 0, false;
      var i := 0;
      while i < mines
        invariant 0 <= i <= mines && used <= |draws|
        invariant Cells() == WithMines(z0, Elems(draws[..used]))
        invariant |MineSlots(Cells())| == |MineSlots(z0)| + i
      {
        if used == |draws| {
          return;
        }
        var slot := draws[used];
        used := used + 1;
        while At(slot) == Mine
          invariant 0 < used <= |draws| && slot == draws[used - 1]
          invariant Cells() == WithMines(z0, Elems(draws[..used - 1]))
          decreases |draws| - used
        {
          assert Elems(draws[..used]) == Elems(draws[..used - 1]) + {slot};
          assert WithMines(z0, Elems(draws[..used])) == WithMines(z0, Elems(draws[..used - 1]));
          if used == |draws| {
            return;
          }
          slot := draws[used];
          used := used + 1;
        }
        ghost var before := Cells();
        SetValue(slot, Mine);
        assert Elems(draws[..used]) == Elems(draws[..used - 1]) + {slot};
        assert Cells() == WithMines(z0, Elems(draws[..used]));
        AddMine(before, slot);
        i := i + 1;
      }
      placed := true;
      MinesFit(Cells());
    }

    /** The count pass: every slot that is not a mine gets the number of
        mines around it. It never writes a 9, so the mines stay where they
        are and later counts see the same mines. */
    method ComputeCounts()
      requires Valid()
      modifies grid
      ensures Cells() == Annotate(size, old(Cells()))
    {
      ghost var z0 := Cells();
      ghost var target := Annotate(size, z0);
      var i := 0;
      while i < size * size
        invariant 0 <= i <= size * size
        invariant |Cells()| == |z0|
        invariant forall s :: 0 <= s < i ==> Cells()[s] == target[s]
        invariant forall s :: i <= s < |z0| ==> Cells()[s] == z0[s]
        invariant MineSlots(Cells()) == MineSlots(z0)
      {
        if grid[Col(size, i), Row(size, i)] != Mine {
          var count := SurroundingMines(i);
          ghost var before := Cells();
          SetValue(i, count);
          KeepMines(before, i, count);
        }
        i := i + 1;
      }
      assert Cells() == target;
    }

    /** The covered slots among the first `column` columns and the first
        `row` rows of column `column`. */
    ghost function CoveredBefore(column: int, row: int): set<int>
      reads uncovered
      requires Valid()
    {
      set s | 0 <= s < size * size && !uncovered[Col(size, s), Row(size, s)]
              && (Col(size, s) < column || (Col(size, s) == column && Row(size, s) < row))
    }

    /** `won`: counts the covered cells column by column and compares the
        count with the number of mines. */
    method Won() returns (w: bool)
      requires Valid()
      ensures w == WinRule(size, mines, Shown())
    {
      var slots := 0;
      var column := 0;
      while column < size
        invariant 0 <= column <= size
        invariant slots == |CoveredBefore(column, 0)|
      {
        var row := 0;
        while row < size
          invariant 0 <= row <= size
          invariant slots == |CoveredBefore(column, row)|
        {
          var s := SlotOf(size, column, row);
          forall t | 0 <= t < size * size && Col(size, t) == column && Row(size, t) == row
            ensures t == s
          {
            SameCoordsSameSlot(size, t, s);
          }
          if !uncovered[column, row] {
            assert CoveredBefore(column, row + 1) == CoveredBefore(column, row) + {s};
            slots := slots + 1;
          } else {
            assert CoveredBefore(column, row + 1) == CoveredBefore(column, row);
          }
          row := row + 1;
        }
        assert CoveredBefore(column, size) == CoveredBefore(column + 1, 0);
        column := column + 1;
      }
      assert CoveredBefore(size, 0) == Covered(size, Shown());
      w := slots == mines;
    }

    /** The search phase of `uncover`: a set of slots to uncover and a set
        of slots still to check; each round goes through a snapshot of the
        slots to check, adds each new one to the slots to uncover and, when
        it shows 0, schedules its neighbours. */
    method FloodSlots(clicked: int) returns (toUncover: set<int>)
      requires Valid() && 0 <= clicked < size * size
      ensures toUncover == Cascade(size, Cells(), clicked)
    {
      ghost var z := Cells();
      ghost var flood := Cascade(size, z, clicked);
      CascadeHasOriginAndRing(size, z, clicked);
      NeighboursAreSurrounding(size, clicked);
      toUncover := {clicked};
      var toCheck: set<int> := Elems(SurroundingSlots(size, clicked));
      while toCheck != {}
        invariant Expanded(size, z, clicked, toUncover, toCheck)
        invariant toUncover <= flood && toCheck <= flood
        decreases Covered(size, toUncover), toCheck
      {
        var snapshot := toCheck;
        ghost var uncoverBefore := toUncover;
        while snapshot != {}
          invariant Expanded(size, z, clicked, toUncover, toCheck)
          invariant toUncover <= flood && toCheck <= flood
          invariant snapshot <= toCheck
          invariant uncoverBefore <= toUncover
          invariant toUncover == uncoverBefore ==> toCheck == snapshot
          invariant toUncover != uncoverBefore ==> Covered(size, toUncover) < Covered(size, uncoverBefore)
          decreases snapshot
        {
          var current :| current in snapshot;
          ExpandStep(size, z, clicked, toUncover, toCheck, current);
          snapshot := snapshot - {current};
          if current in toUncover {
            toCheck := toCheck - {current};
          } else {
            UncoverOne(size, toUncover, current);
            toUncover := toUncover + {current};
            toCheck := toCheck - {current};
            if grid[Col(size, current), Row(size, current)] == 0 {
              CascadeClosed(size, z, clicked, current);
              NeighboursAreSurrounding(size, current);
              toCheck := toCheck + Elems(SurroundingSlots(size, current));
            }
          }
        }
      }
      ExpandedIsCascade(size, z, clicked, toUncover);
    }

    /** `uncover`: the flood reveal from `clicked`; every slot the search
        finds is uncovered. */
    method Uncover(clicked: int)
      requires Valid() && 0 <= clicked < size * size
      modifies uncovered
      ensures Shown() == old(Shown()) + Cascade(size, Cells(), clicked)
    {
      var toUncover := FloodSlots(clicked);
      var todo := toUncover;
      while todo != {}
        invariant todo <= toUncover
        invariant Shown() == old(Shown()) + (toUncover - todo)
        decreases todo
      {
        var t :| t in todo;
        MarkUncovered(t);
        todo := todo - {t};
      }
    }

    /** Accepting clicks once the board is ready (`play = True`). */
    method Start()
      requires Valid()
      modifies this
      ensures State() == old(State()).(play := true)
    {
      play := true;
    }

    /** A left click on the cell in column `col` and row `row`: ignored while
        `play` is false or on an uncovered or flagged cell; on a mine the
        game is lost and only that cell is uncovered; otherwise the cell is
        uncovered, the flood runs from it when it shows 0, and the game ends
        when it is won. */
    method LeftClick(col: int, row: int)
      requires Valid() && 0 <= col < size && 0 <= row < size
      modifies this, uncovered
      ensures State() == AfterLeftClick(size, mines, Cells(), old(State()), SlotOf(size, col, row))
    {
      if !play {
        return;
      }
      var slot := SlotOf(size, col, row);
      if uncovered[col, row] {
        return;
      } else if flagged[col, row] {
        return;
      }
      if grid[col, row] == Mine {
        play := false;
        MarkUncovered(slot);
        return;
      }
      RevealSafe(slot);
    }

    /** The rest of a left click on a covered cell without a mine: uncover
        it, flood from it when it shows 0, and stop accepting clicks once
        the game is won. */
    method RevealSafe(slot: int)
      requires Valid() && 0 <= slot < size * size && At(slot) != Mine
      modifies this, uncovered
      ensures Cells() == old(Cells())
      ensures Flags() == old(Flags())
      ensures Shown() == old(Shown()) + {slot} + (if At(slot) == 0 then Cascade(size, Cells(), slot) else {})
      ensures play == (old(play) && !WinRule(size, mines, Shown()))
    {
      MarkUncovered(slot);
      if At(slot) == 0 {
        Uncover(slot);
      }
      var w := Won();
      if w {
        play := false;
      }
    }

    /** A right click on the cell in column `col` and row `row`: ignored
        while `play` is false or on an uncovered cell; otherwise the cell's
        flag is removed if set and placed if not. */
    method RightClick(col: int, row: int)
      requires Valid() && 0 <= col < size && 0 <= row < size
      modifies flagged
      ensures State() == AfterRightClick(old(State()), SlotOf(size, col, row))
    {
      if !play {
        return;
      }
      var slot := SlotOf(size, col, row);
      if uncovered[col, row] {
        return;
      }
      if flagged[col, row] {
        SetFlag(slot, false);
        return;
      }
      SetFlag(slot, true);
    }
  }

  /** The module-level start of the game: empty arrays, mine placement from
      the random draws, the count pass, then clicks are accepted. The mines
      are the drawn slots, and placement finishes exactly when the draws hold
      at least `m` distinct slots. When the draws run out before every mine
      is placed, the script never gets past
      placement: no counts are written and clicks are never accepted. When
      every mine could be placed the game starts consistent, which needs at
      most as many mines as cells. */
  method NewGame(n: int, m: nat, draws: seq<int>) returns (g: Game, placed: bool)
    requires n >= 2
    requires forall k :: 0 <= k < |draws| ==> 0 <= draws[k] < n * n
    ensures fresh(g) && fresh(g.grid) && fresh(g.uncovered) && fresh(g.flagged)
    ensures g.Valid() && g.size == n && g.mines == m
    ensures g.State() == Session({}, {}, placed)
    ensures placed ==> m <= n * n && Consistent(n, m, g.Cells(), g.State())
    ensures !placed ==> |MineSlots(g.Cells())| < m
    ensures MineSlots(g.Cells()) <= Elems(draws)
    ensures !placed ==> MineSlots(g.Cells()) == Elems(draws)
    ensures placed <==> m <= |Elems(draws)|
  {
    g := new Game(n, m);
    ghost var empty := g.Cells();
    assert MineSlots(empty) == {};
    var used;
    used, placed := g.PlaceMines(draws);
    ghost var laid := g.Cells();
    assert MineSlots(laid) == Elems(draws[..used]);
    assert Elems(draws[..used]) <= Elems(draws);
    if placed {
      SubsetCard(Elems(draws[..used]), Elems(draws));
      g.ComputeCounts();
      g.Start();
      AnnotateCounted(n, laid);
    } else {
      assert draws[..used] == draws;
    }
  }

  /** The loss scenario played on the engine: a 2×2 game whose one draw puts
      the mine in slot 0 starts, and a left click on column 0, row 0 uncovers
      only that cell and stops the game. */
  method LossFromStart() returns (g: Game)
    ensures fresh(g) && g.Valid()
    ensures g.State() == Session({0}, {}, false)
  {
    var placed;
    g, placed := NewGame(2, 1, [0]);
    assert Elems([0]) == {0};
    assert MineSlots(g.Cells()) == {0} by {
      EqualCardSubset(MineSlots(g.Cells()), {0});
    }
    assert g.Cells()[0] == Mine;
    g.LeftClick(0, 0);
  }
}
