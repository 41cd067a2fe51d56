/** The click state machine of the game on abstract state: which slots are
    uncovered, which are flagged, and whether clicks are still accepted
    (the source's `play` flag). */
module Rules {
  import opened Grid
  import opened Board
  import opened Reveal

  /** What the player sees of a board. */
  datatype Session = Session(shown: set<int>, flags: set<int>, play: bool)

  /** The slots still covered. */
  function Covered(n: int, shown: set<int>): set<int>
  {
    set s | 0 <= s < n * n && s !in shown
  }

  /** Finding a slot not found before removes exactly that slot from the
      slots still outside the found set; the flood search ends because of it. */
  lemma UncoverOne(n: int, found: set<int>, x: int)
    requires 0 <= x < n * n && x !in found
    ensures x in Covered(n, found)
    ensures Covered(n, found + {x}) == Covered(n, found) - {x}
  {
  }

  /** The source's win rule (`won`): exactly as many covered cells as mines. */
  predicate WinRule(n: int, m: int, shown: set<int>)
  {
    |Covered(n, shown)| == m
  }

  /** A left click on slot `s`: ignored once the game is over or on a cell
      that is uncovered or flagged; on a mine it uncovers that cell only and
      ends the game; otherwise it uncovers the cell, floods from it when it
      shows 0, and ends the game when the win rule then holds. */
  ghost function AfterLeftClick(n: int, m: int, z: seq<int>, st: Session, s: int): (r: Session)
    requires n > 0 && |z| == n * n && 0 <= s < n * n
    ensures st.shown <= r.shown && r.flags == st.flags
    ensures r.play ==> st.play
    ensures r != st ==> st.play && s !in st.shown && s !in st.flags && s in r.shown
  {
    if !st.play || s in st.shown || s in st.flags then st
    else if z[s] == Mine then Session(st.shown + {s}, st.flags, false)
    else
      var shown := st.shown + {s} + (if z[s] == 0 then Cascade(n, z, s) else {});
      Session(shown, st.flags, !WinRule(n, m, shown))
  }

  /** A right click on slot `s`: ignored once the game is over or on an
      uncovered cell; otherwise it flips the flag of that cell. */
  function AfterRightClick(st: Session, s: int): (r: Session)
    ensures r.shown == st.shown && r.play == st.play
    ensures forall t :: t != s ==> (t in r.flags <==> t in st.flags)
    ensures (s in r.flags <==> s in st.flags) <==> (!st.play || s in st.shown)
  {
    if !st.play || s in st.shown then st
    else if s in st.flags then Session(st.shown, st.flags - {s}, st.play)
    else Session(st.shown, st.flags + {s}, st.play)
  }

  /** The state every game keeps from the moment the board is finished:
      the board is counted with `m` mines, shown and flagged slots are on
      the board, and while clicks are accepted no mine is uncovered. */
  ghost predicate Consistent(n: int, m: int, z: seq<int>, st: Session)
  {
    && n >= 2
    && Counted(n, z)
    && |MineSlots(z)| == m
    && (forall s :: s in st.shown ==> 0 <= s < n * n)
    && (forall s :: s in st.flags ==> 0 <= s < n * n)
    && (st.play ==> st.shown !! MineSlots(z))
  }

  lemma EqualCardSubset(a: set<int>, b: set<int>)
    requires a <= b && |a| == |b|
    ensures a == b
  {
    assert b == a + (b - a);
    assert |b - a| == 0;
  }

  /** While no mine is uncovered, the win rule (as many covered cells as
      mines) holds exactly when the covered cells are the mines, that is,
      when every cell without a mine is uncovered. */
  lemma WinRuleMeansAllSafeShown(n: int, z: seq<int>, shown: set<int>)
    requires |z| == n * n
    requires forall s :: s in shown ==> 0 <= s < n * n
    requires shown !! MineSlots(z)
    ensures WinRule(n, |MineSlots(z)|, shown) <==> Covered(n, shown) == MineSlots(z)
    ensures Covered(n, shown) == MineSlots(z) <==> forall s :: 0 <= s < n * n && z[s] != Mine ==> s in shown
  {
    assert MineSlots(z) <= Covered(n, shown);
    if WinRule(n, |MineSlots(z)|, shown) {
      EqualCardSubset(MineSlots(z), Covered(n, shown));
    }
    if forall s :: 0 <= s < n * n && z[s] != Mine ==> s in shown {
      assert Covered(n, shown) == MineSlots(z);
    }
    if Covered(n, shown) == MineSlots(z) {
      forall s | 0 <= s < n * n && z[s] != Mine ensures s in shown {
        assert s !in Covered(n, shown);
      }
    }
  }

  /** A left click keeps the game consistent: in particular the cascade
      never uncovers a mine, so while the game goes on no mine is shown. */
  lemma LeftClickKeepsConsistent(n: int, m: int, z: seq<int>, st: Session, s: int)
    requires Consistent(n, m, z, st) && 0 <= s < n * n
    ensures Consistent(n, m, z, AfterLeftClick(n, m, z, st, s))
  {
    var r := AfterLeftClick(n, m, z, st, s);
    if st.play && s !in st.shown && s !in st.flags && z[s] != Mine {
      var flood := if z[s] == 0 then Cascade(n, z, s) else {};
      if z[s] == 0 {
        CascadeAvoidsMines(n, z, s);
      }
      assert r.shown == st.shown + {s} + flood;
      assert r.shown !! MineSlots(z);
    }
  }

  /** A right click keeps the game consistent. */
  lemma RightClickKeepsConsistent(n: int, m: int, z: seq<int>, st: Session, s: int)
    requires Consistent(n, m, z, st) && 0 <= s < n * n
    ensures Consistent(n, m, z, AfterRightClick(st, s))
  {
  }

  /** In a consistent game, a left click on a covered, unflagged cell ends
      the game exactly when that cell is a mine or when afterwards every
      cell without a mine is uncovered; a mine is uncovered afterwards
      exactly when the clicked cell is one, which tells a loss from a win. */
  lemma LeftClickEndsGame(n: int, m: int, z: seq<int>, st: Session, s: int)
    requires Consistent(n, m, z, st) && 0 <= s < n * n
    requires st.play && s !in st.shown && s !in st.flags
    ensures var r := AfterLeftClick(n, m, z, st, s);
      !r.play <==> z[s] == Mine || forall t :: 0 <= t < n * n && z[t] != Mine ==> t in r.shown
    ensures var r := AfterLeftClick(n, m, z, st, s);
      r.shown !! MineSlots(z) <==> z[s] != Mine
  {
    var r := AfterLeftClick(n, m, z, st, s);
    if z[s] != Mine {
      LeftClickKeepsConsistent(n, m, z, st, s);
      var flood := if z[s] == 0 then Cascade(n, z, s) else {};
      if z[s] == 0 {
        CascadeAvoidsMines(n, z, s);
      }
      assert r.shown == st.shown + {s} + flood;
      WinRuleMeansAllSafeShown(n, z, r.shown);
    } else {
      assert s in r.shown && s in MineSlots(z);
    }
  }

  /** A flag protects a cell: right-clicking a covered cell and then
      left-clicking it leaves it covered and the game going; right-clicking
      an uncovered cell changes nothing. */
  lemma FlagBlocksReveal(n: int, m: int, z: seq<int>, st: Session, s: int)
    requires n > 0 && |z| == n * n && 0 <= s < n * n
    requires st.play && s !in st.flags
    ensures s !in st.shown ==>
      var flagged := AfterRightClick(st, s);
      AfterLeftClick(n, m, z, flagged, s) == flagged && s !in flagged.shown && flagged.play
    ensures s in st.shown ==> AfterRightClick(st, s) == st
  {
  }

  /** The loss scenario on a 2×2 board with one mine in slot 0: clicking the
      mine uncovers it and ends the game, and later clicks are ignored. */
  lemma LossExample(later: int)
    requires 0 <= later < 4
    ensures var lost := AfterLeftClick(2, 1, [9, 1, 1, 1], Session({}, {}, true), 0);
      && lost == Session({0}, {}, false)
      && AfterLeftClick(2, 1, [9, 1, 1, 1], lost, later) == lost
  {
  }

  /** The win scenario on the same board: uncovering the three cells
      without a mine leaves one covered cell, as many as there are mines,
      and only the last of the three clicks ends the game. */
  lemma WinExample()
    ensures var z := [9, 1, 1, 1];
      var s1 := AfterLeftClick(2, 1, z, Session({}, {}, true), 2);
      var s2 := AfterLeftClick(2, 1, z, s1, 1);
      var s3 := AfterLeftClick(2, 1, z, s2, 3);
      s1.play && s2.play && s3 == Session({1, 2, 3}, {}, false)
  {
    var z := [9, 1, 1, 1];
    assert Covered(2, {2}) == {0, 1, 3};
    assert {} + {2} + {} == {2};
    assert !WinRule(2, 1, {2});
    var s1 := AfterLeftClick(2, 1, z, Session({}, {}, true), 2);
    assert s1 == Session({2}, {}, true);
    assert Covered(2, {1, 2}) == {0, 3};
    assert {2} + {1} + {} == {1, 2};
    assert !WinRule(2, 1, {1, 2});
    var s2 := AfterLeftClick(2, 1, z, s1, 1);
    assert s2 == Session({1, 2}, {}, true);
    assert Covered(2, {1, 2, 3}) == {0};
    assert {1, 2} + {3} + {} == {1, 2, 3};
  }

  /** The 2×2 board with a mine in slot 0 is counted: each other cell
      touches the mine. */
  lemma SmallBoardCounted()
    ensures Counted(2, [9, 1, 1, 1]) && MineSlots([9, 1, 1, 1]) == {0}
  {
    var z := [9, 1, 1, 1];
    assert MineSlots(z) == {0};
    forall s | 1 <= s < 4 ensures Neighbours(2, s) * {0} == {0} {
      assert Adjacent(2, s, 0);
    }
  }
}
