/**
 * Small concrete runs of the matcher. Faculty Fay ranks Ann before Bob; the
 * runs differ only in the order of the student sheet and in Bob's second
 * choice.
 */
module WorkedCases {
  import opened AllocationSpec

  // Student and faculty identifiers, as the sheets' cells would hold them.
  const Ann: int := 1
  const Bob: int := 2
  const Fay: int := 10
  const Xu: int := 20

  /** Fay's ranked list; Xu is never part of the table. */
  function FayTable(): map<int, seq<int>>
  {
    map[Fay := [Ann, Bob]]
  }

  /** Fay placing Ann and then Bob from the list [Ann, Bob]. */
  lemma PlaceHeadsOfFay()
    ensures InitialState(FayTable()) == State(FayTable(), map[Fay := []])
    ensures Place(InitialState(FayTable()), Ann, Fay) == State(map[Fay := [Bob]], map[Fay := [Ann]])
    ensures Place(State(map[Fay := [Bob]], map[Fay := [Ann]]), Bob, Fay)
         == State(map[Fay := []], map[Fay := [Ann, Bob]])
  {
    assert InitialState(FayTable()).allocations == map[Fay := []];
    assert Without([Ann, Bob], {Ann}) == [Bob] by {
      assert [Ann, Bob][1..] == [Bob];
      assert Without([Bob], {Ann}) == [Bob] by {
        assert [Bob][1..] == [];
      }
    }
    assert Without([Bob], {Bob}) == [] by {
      assert [Bob][1..] == [];
    }
    assert RemoveEverywhere(FayTable(), Ann) == map[Fay := [Bob]] by {
      assert RemoveEverywhere(FayTable(), Ann)[Fay] == [Bob];
    }
    assert RemoveEverywhere(map[Fay := [Bob]], Bob) == map[Fay := []] by {
      assert RemoveEverywhere(map[Fay := [Bob]], Bob)[Fay] == [];
    }
    assert [] + [Ann] == [Ann] && [Ann] + [Bob] == [Ann, Bob];
  }

  /**
   * Both students rank only Fay. With the sheet in the order Ann, Bob both are
   * placed in round 0: placing Ann makes Bob the head of Fay's list at once.
   */
  lemma BothPlacedInOneRound()
    ensures Allocation([StudentPreference(Ann, [Fay]), StudentPreference(Bob, [Fay])], FayTable()).allocations
         == map[Fay := [Ann, Bob]]
  {
    var ann, bob := StudentPreference(Ann, [Fay]), StudentPreference(Bob, [Fay]);
    var afterAnn := State(map[Fay := [Bob]], map[Fay := [Ann]]);
    var afterBoth := State(map[Fay := []], map[Fay := [Ann, Bob]]);
    PlaceHeadsOfFay();
    RoundStep(afterAnn, bob, [], 0);
    assert [bob] == [bob] + [];
    RoundStep(InitialState(FayTable()), ann, [bob], 0);
    assert [ann, bob] == [ann] + [bob];
    assert Round(InitialState(FayTable()), [ann, bob], 0) == (afterBoth, []);
  }

  /**
   * With the sheet in the order Bob, Ann, Bob is not the head of Fay's list in
   * round 0 and has no second choice, so only Ann is placed.
   */
  lemma DeferredStudentLeftOver()
    ensures Allocation([StudentPreference(Bob, [Fay]), StudentPreference(Ann, [Fay])], FayTable()).allocations
         == map[Fay := [Ann]]
  {
    var ann, bob := StudentPreference(Ann, [Fay]), StudentPreference(Bob, [Fay]);
    var students := [bob, ann];
    var st0 := InitialState(FayTable());
    var afterAnn := State(map[Fay := [Bob]], map[Fay := [Ann]]);
    PlaceHeadsOfFay();
    assert CanPlace(st0, ann, 0) && !CanPlace(st0, bob, 0);
    assert Round(afterAnn, [], 0) == (afterAnn, []);
    RoundStep(st0, ann, [], 0);
    assert [ann] == [ann] + [];
    assert Round(st0, [ann], 0) == (afterAnn, []);
    RoundStep(st0, bob, [ann], 0);
    assert [bob] + [] == [bob];
    assert students == [bob] + [ann];
    assert Round(st0, students, 0) == (afterAnn, [bob]);
    forall level | 1 <= level < MaxRounds ensures Round(afterAnn, [bob], level) == (afterAnn, [bob]) {
      RoundStep(afterAnn, bob, [], level);
      assert [bob] == [bob] + [];
    }
    assert Rounds(afterAnn, [bob], 4) == afterAnn;
    assert Rounds(afterAnn, [bob], 3) == afterAnn;
    assert Rounds(afterAnn, [bob], 2) == afterAnn;
    assert Rounds(afterAnn, [bob], 1) == afterAnn;
  }

  /** In that run Bob is the one unallocated student. */
  lemma DeferredStudentUnallocated()
    ensures var students := [StudentPreference(Bob, [Fay]), StudentPreference(Ann, [Fay])];
      Unallocated(students, Allocation(students, FayTable()).allocations) == {Bob}
  {
    DeferredStudentLeftOver();
    OnlyAnnAllocated();
    SheetOfBobAndAnn();
  }

  lemma OnlyAnnAllocated()
    ensures AllocatedIds(map[Fay := [Ann]]) == {Ann}
  {
    var a := map[Fay := [Ann]];
    assert Fay in a && Ann in a[Fay];
    assert forall f, s :: f in a && s in a[f] ==> s == Ann;
  }

  lemma SheetOfBobAndAnn()
    ensures StudentIds([StudentPreference(Bob, [Fay]), StudentPreference(Ann, [Fay])]) == {Bob, Ann}
  {
    var students := [StudentPreference(Bob, [Fay]), StudentPreference(Ann, [Fay])];
    assert students[0] in students && students[1] in students;
  }

  /** Same order, but Bob names Fay again at rank 1: Bob is placed in round 1. */
  lemma DeferredStudentPlacedNextRound()
    ensures Allocation([StudentPreference(Bob, [Fay, Fay]), StudentPreference(Ann, [Fay])], FayTable()).allocations
         == map[Fay := [Ann, Bob]]
  {
    var ann, bob := StudentPreference(Ann, [Fay]), StudentPreference(Bob, [Fay, Fay]);
    var students := [bob, ann];
    var st0 := InitialState(FayTable());
    var afterAnn := State(map[Fay := [Bob]], map[Fay := [Ann]]);
    var afterBoth := State(map[Fay := []], map[Fay := [Ann, Bob]]);
    PlaceHeadsOfFay();
    assert CanPlace(st0, ann, 0) && !CanPlace(st0, bob, 0);
    assert Round(afterAnn, [], 0) == (afterAnn, []);
    RoundStep(st0, ann, [], 0);
    assert [ann] == [ann] + [];
    assert Round(st0, [ann], 0) == (afterAnn, []);
    RoundStep(st0, bob, [ann], 0);
    assert [bob] + [] == [bob];
    assert students == [bob] + [ann];
    assert Round(st0, students, 0) == (afterAnn, [bob]);
    RoundStep(afterAnn, bob, [], 1);
    assert [bob] == [bob] + [];
    assert Round(afterAnn, [bob], 1) == (afterBoth, []);
    assert Rounds(afterBoth, [], 2) == afterBoth;
  }

  /**
   * Ann names only Xu, which is not in the table, so she is never placed and
   * stays the head of Fay's list: Bob, listed after her, is blocked and ends
   * up unplaced as well.
   */
  lemma UnplacedHeadBlocks()
    ensures Allocation([StudentPreference(Ann, [Xu]), StudentPreference(Bob, [Fay])], FayTable()).allocations
         == map[Fay := []]
  {
    var ann, bob := StudentPreference(Ann, [Xu]), StudentPreference(Bob, [Fay]);
    var st := InitialState(FayTable());
    assert st == State(FayTable(), map[Fay := []]);
    forall level | 0 <= level < MaxRounds ensures Round(st, [ann, bob], level) == (st, [ann, bob]) {
      assert !CanPlace(st, ann, level) && !CanPlace(st, bob, level);
      RoundStep(st, bob, [], level);
      assert [bob] == [bob] + [];
      RoundStep(st, ann, [bob], level);
      assert [ann, bob] == [ann] + [bob];
    }
    assert Rounds(st, [ann, bob], 4) == st;
    assert Rounds(st, [ann, bob], 3) == st;
    assert Rounds(st, [ann, bob], 2) == st;
    assert Rounds(st, [ann, bob], 1) == st;
  }

  /** A faculty named only at index 5 of the preferences is never consulted. */
  lemma RankFiveIsNeverConsulted()
    ensures Allocation([StudentPreference(Ann, [Xu, Xu, Xu, Xu, Xu, Fay])], map[Fay := [Ann]]).allocations
         == map[Fay := []]
  {
    var st := InitialState(map[Fay := [Ann]]);
    var ann := StudentPreference(Ann, [Xu, Xu, Xu, Xu, Xu, Fay]);
    forall level | 0 <= level < MaxRounds ensures Round(st, [ann], level) == (st, [ann]) {
      assert ann.preferences[level] == Xu && Xu !in st.remaining;
      RoundStep(st, ann, [], level);
      assert [ann] == [ann] + [];
    }
    assert Rounds(st, [ann], 4) == st;
    assert Rounds(st, [ann], 3) == st;
    assert Rounds(st, [ann], 2) == st;
    assert Rounds(st, [ann], 1) == st;
  }
}
