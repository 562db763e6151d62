/**
 * Reference semantics of the round-bounded student-to-faculty matcher.
 *
 * Students are identified by values of `S`, faculty by values of `F`. The
 * matcher keeps two tables keyed by faculty: the faculty's remaining ranked
 * candidates and the students allocated to it so far. In round `level` every
 * pending student, in input order, is offered to the faculty at index `level`
 * of their preference list, and is placed only when that faculty still has a
 * candidate list, has room, and has this student at the head of its list.
 */
module AllocationSpec {

  /** A faculty never takes more than this many students. */
  const MaxStudentsPerFaculty: nat := 8

  /** Preference indices 0 .. MaxRounds - 1 are the only ones ever consulted. */
  const MaxRounds: nat := 5

  /** One parsed row of the student sheet: the student and their ranked faculty. */
  datatype StudentPreference<S, F> = StudentPreference(student: S, preferences: seq<F>)

  /** The two tables the matcher works on. */
  datatype State<S, F> = State(remaining: map<F, seq<S>>, allocations: map<F, seq<S>>)

  // ---------------------------------------------------------------------------
  // Sequences
  // ---------------------------------------------------------------------------

  /** `a` can be obtained from `b` by deleting elements (order is kept). */
  predicate IsSubsequence<T(==)>(a: seq<T>, b: seq<T>)
    decreases |b|
  {
    a == [] || (b != [] && ((a[0] == b[0] && IsSubsequence(a[1..], b[1..])) || IsSubsequence(a, b[1..])))
  }

  lemma {:induction false} SubsequenceMultiset<T>(a: seq<T>, b: seq<T>)
    requires IsSubsequence(a, b)
    ensures multiset(a) <= multiset(b)
    decreases |b|
  {
    if a == [] {
    } else if a[0] == b[0] && IsSubsequence(a[1..], b[1..]) {
      SubsequenceMultiset(a[1..], b[1..]);
      assert a == [a[0]] + a[1..];
      assert b == [b[0]] + b[1..];
    } else {
      SubsequenceMultiset(a, b[1..]);
      assert b == [b[0]] + b[1..];
    }
  }

  lemma SubsequenceMembers<T>(a: seq<T>, b: seq<T>)
    requires IsSubsequence(a, b)
    ensures forall x :: x in a ==> x in b
  {
    SubsequenceMultiset(a, b);
    forall x | x in a ensures x in b {
      assert x in multiset(a);
    }
  }

  /** The elements of `xs` that are not in `gone`, in their original order. */
  function Without<S(==)>(xs: seq<S>, gone: set<S>): (r: seq<S>)
    ensures |r| <= |xs|
  {
    if xs == [] then []
    else if xs[0] in gone then Without(xs[1..], gone)
    else [xs[0]] + Without(xs[1..], gone)
  }

  /** A value survives filtering exactly when it was in the list and is not removed. */
  lemma {:induction false} WithoutMember<S>(xs: seq<S>, gone: set<S>, x: S)
    ensures x in Without(xs, gone) <==> x in xs && x !in gone
  {
    if xs != [] {
      WithoutMember(xs[1..], gone, x);
      assert x in xs <==> x == xs[0] || x in xs[1..];
    }
  }

  /** Filtering keeps the order of the survivors ... */
  lemma {:induction false} WithoutIsSubsequence<S>(xs: seq<S>, gone: set<S>)
    ensures IsSubsequence(Without(xs, gone), xs)
  {
    if xs != [] {
      WithoutIsSubsequence(xs[1..], gone);
      var r := Without(xs, gone);
      if xs[0] !in gone {
        assert r[0] == xs[0] && r[1..] == Without(xs[1..], gone);
      }
    }
  }

  /** ... and every occurrence of a survivor, and no occurrence of a removed value. */
  lemma {:induction false} WithoutCount<S>(xs: seq<S>, gone: set<S>, x: S)
    ensures multiset(Without(xs, gone))[x] == if x in gone then 0 else multiset(xs)[x]
  {
    if xs != [] {
      WithoutCount(xs[1..], gone, x);
      assert xs == [xs[0]] + xs[1..];
    }
  }

  /** Filtering twice is filtering once by both sets. */
  lemma {:induction false} WithoutWithout<S>(xs: seq<S>, a: set<S>, b: set<S>)
    ensures Without(Without(xs, a), b) == Without(xs, a + b)
  {
    if xs != [] {
      WithoutWithout(xs[1..], a, b);
      if xs[0] !in a {
        assert Without(xs, a) == [xs[0]] + Without(xs[1..], a);
        assert Without(xs, a)[1..] == Without(xs[1..], a);
      }
    }
  }

  lemma {:induction false} WithoutNothing<S>(xs: seq<S>)
    ensures Without(xs, {}) == xs
  {
    if xs != [] {
      WithoutNothing(xs[1..]);
      assert xs == [xs[0]] + xs[1..];
    }
  }

  // ---------------------------------------------------------------------------
  // Identifier sets
  // ---------------------------------------------------------------------------

  /** Every student id named by some row of the student sheet. */
  function StudentIds<S(==), F(==)>(students: seq<StudentPreference<S, F>>): (ids: set<S>)
    ensures forall i :: 0 <= i < |students| ==> students[i].student in ids
    ensures forall s :: s in ids ==> exists i :: 0 <= i < |students| && students[i].student == s
  {
    set sd | sd in students :: sd.student
  }

  /** Every student id in some faculty's allocated list. */
  function AllocatedIds<S(==), F(==)>(allocations: map<F, seq<S>>): set<S>
  {
    set f, s | f in allocations && s in allocations[f] :: s
  }

  /** An id is allocated exactly when some faculty's list holds it. */
  lemma AllocatedIdsMember<S, F>(allocations: map<F, seq<S>>, s: S)
    ensures s in AllocatedIds(allocations) <==> exists f :: f in allocations && s in allocations[f]
  {
  }

  /** The students of the sheet that no faculty took. */
  function Unallocated<S(==), F(==)>(students: seq<StudentPreference<S, F>>, allocations: map<F, seq<S>>): (u: set<S>)
    ensures u <= StudentIds(students)
    ensures u !! AllocatedIds(allocations)
  {
    StudentIds(students) - AllocatedIds(allocations)
  }

  lemma AllocatedIdsAppend<S, F>(a: map<F, seq<S>>, f: F, s: S)
    requires f in a
    ensures AllocatedIds(a[f := a[f] + [s]]) == AllocatedIds(a) + {s}
  {
    var a' := a[f := a[f] + [s]];
    forall x | x in AllocatedIds(a') ensures x in AllocatedIds(a) + {s} {
      var g :| g in a' && x in a'[g];
      if g != f {
        assert x in a[g];
      } else if x != s {
        assert x in a[f];
      }
    }
    forall x | x in AllocatedIds(a) ensures x in AllocatedIds(a') {
      var g :| g in a && x in a[g];
      assert x in a'[g];
    }
    assert s in a'[f];
  }

  // ---------------------------------------------------------------------------
  // One placement, one round, all rounds
  // ---------------------------------------------------------------------------

  /** Drop `s` from every faculty's remaining list. */
  function RemoveEverywhere<S(==), F(==)>(table: map<F, seq<S>>, s: S): (r: map<F, seq<S>>)
    ensures r.Keys == table.Keys
    ensures forall f :: f in r ==> s !in r[f] && IsSubsequence(r[f], table[f])
  {
    forall f | f in table ensures s !in Without(table[f], {s}) && IsSubsequence(Without(table[f], {s}), table[f]) {
      WithoutMember(table[f], {s}, s);
      WithoutIsSubsequence(table[f], {s});
    }
    map f | f in table :: Without(table[f], {s})
  }

  /** Striking `s` keeps every occurrence of every other student in every list. */
  lemma RemoveEverywhereKeepsOthers<S, F>(table: map<F, seq<S>>, s: S, f: F, x: S)
    requires f in table && x != s
    ensures multiset(RemoveEverywhere(table, s)[f])[x] == multiset(table[f])[x]
  {
    WithoutCount(table[f], {s}, x);
  }

  /** Both tables have the same faculty. */
  predicate Consistent<S(==), F(==)>(st: State<S, F>)
  {
    st.remaining.Keys == st.allocations.Keys
  }

  /** The four tests a pending student passes to be placed in round `level`. */
  predicate CanPlace<S(==), F(==)>(st: State<S, F>, sd: StudentPreference<S, F>, level: nat)
    requires Consistent(st)
    ensures CanPlace(st, sd, level) ==>
      level < |sd.preferences| && sd.preferences[level] in st.remaining &&
      sd.student in st.remaining[sd.preferences[level]]
  {
    && level < |sd.preferences|
    && var f := sd.preferences[level];
    && f in st.remaining
    && |st.remaining[f]| > 0
    && |st.allocations[f]| < MaxStudentsPerFaculty
    && sd.student == st.remaining[f][0]
  }

  /** Append `s` to `f`'s allocation and strike `s` from every remaining list. */
  function Place<S(==), F(==)>(st: State<S, F>, s: S, f: F): (r: State<S, F>)
    requires f in st.allocations
    ensures AllocatedIds(r.allocations) == AllocatedIds(st.allocations) + {s}
    ensures Extends(st.allocations, r.allocations)
    ensures forall g :: g in r.remaining ==> s !in r.remaining[g]
  {
    AllocatedIdsAppend(st.allocations, f, s);
    AppendExtends(st.allocations, f, s);
    State(RemoveEverywhere(st.remaining, s), st.allocations[f := st.allocations[f] + [s]])
  }

  /**
   * One round over the pending students, in order: the state after the round
   * and the students carried over to the next round.
   */
  function Round<S(==), F(==)>(st: State<S, F>, pending: seq<StudentPreference<S, F>>, level: nat)
    : (r: (State<S, F>, seq<StudentPreference<S, F>>))
    requires Consistent(st)
    ensures r.0.remaining.Keys == st.remaining.Keys && r.0.allocations.Keys == st.allocations.Keys
    ensures IsSubsequence(r.1, pending)
    decreases |pending|
  {
    if pending == [] then (st, [])
    else
      var sd := pending[0];
      if CanPlace(st, sd, level) then
        Round(Place(st, sd.student, sd.preferences[level]), pending[1..], level)
      else
        var r := Round(st, pending[1..], level);
        (r.0, [sd] + r.1)
  }

  /** One step of a round: how the first pending student is handled. */
  lemma RoundStep<S, F>(st: State<S, F>, sd: StudentPreference<S, F>, rest: seq<StudentPreference<S, F>>, level: nat)
    requires Consistent(st)
    ensures Round(st, [sd] + rest, level) ==
      if CanPlace(st, sd, level) then Round(Place(st, sd.student, sd.preferences[level]), rest, level)
      else (Round(st, rest, level).0, [sd] + Round(st, rest, level).1)
  {
    assert ([sd] + rest)[0] == sd && ([sd] + rest)[1..] == rest;
  }

  /** Rounds `level`, `level + 1`, ... until nobody is pending or MaxRounds is reached. */
  function Rounds<S(==), F(==)>(st: State<S, F>, pending: seq<StudentPreference<S, F>>, level: nat): (r: State<S, F>)
    requires Consistent(st)
    ensures r.remaining.Keys == st.remaining.Keys && r.allocations.Keys == st.allocations.Keys
    decreases MaxRounds - level
  {
    if pending != [] && level < MaxRounds then
      var r := Round(st, pending, level);
      Rounds(r.0, r.1, level + 1)
    else
      st
  }

  /** One step of the round loop. */
  lemma RoundsStep<S, F>(st: State<S, F>, pending: seq<StudentPreference<S, F>>, level: nat)
    requires Consistent(st) && pending != [] && level < MaxRounds
    ensures Rounds(st, pending, level)
         == Rounds(Round(st, pending, level).0, Round(st, pending, level).1, level + 1)
  {
  }

  /** Every faculty of the table with an empty allocation. */
  function InitialState<S(==), F(==)>(table: map<F, seq<S>>): (st: State<S, F>)
    ensures st.remaining == table && st.allocations.Keys == table.Keys
    ensures forall f :: f in st.allocations ==> st.allocations[f] == []
    ensures Consistent(st)
  {
    State(table, map f | f in table :: [])
  }

  /** The whole matcher: the final remaining lists and the allocation. */
  function Allocation<S(==), F(==)>(students: seq<StudentPreference<S, F>>, table: map<F, seq<S>>): (r: State<S, F>)
    ensures r.allocations.Keys == table.Keys && r.remaining.Keys == table.Keys
  {
    Rounds(InitialState(table), students, 0)
  }

  // ---------------------------------------------------------------------------
  // The invariant kept by every placement
  // ---------------------------------------------------------------------------

  predicate WithinCapacity<S(==), F(==)>(allocations: map<F, seq<S>>)
  {
    forall f :: f in allocations ==> |allocations[f]| <= MaxStudentsPerFaculty
  }

  /** No id occurs twice, neither in two lists nor twice in one list. */
  predicate Exclusive<S(==), F(==)>(allocations: map<F, seq<S>>)
  {
    forall f, g, i, j ::
      (f in allocations && g in allocations && 0 <= i < |allocations[f]| && 0 <= j < |allocations[g]| &&
       allocations[f][i] == allocations[g][j]) ==> f == g && i == j
  }

  /** Some row of the sheet is for `s` and names `f` at a rank below MaxRounds. */
  ghost predicate Chose<S, F>(students: seq<StudentPreference<S, F>>, s: S, f: F)
  {
    exists sd, rank :: sd in students && 0 <= rank < MaxRounds && rank < |sd.preferences| &&
      sd.student == s && sd.preferences[rank] == f
  }

  /** Every allocated student was ranked by the faculty and chose the faculty. */
  ghost predicate Endorsed<S, F>(allocations: map<F, seq<S>>, table: map<F, seq<S>>, students: seq<StudentPreference<S, F>>)
  {
    forall f, s :: f in allocations && s in allocations[f] ==>
      f in table && s in table[f] && Chose(students, s, f)
  }

  /** Each remaining list is the input list without the students allocated so far. */
  predicate TracksRemaining<S(==), F(==)>(st: State<S, F>, table: map<F, seq<S>>)
  {
    && st.remaining.Keys == table.Keys
    && forall f :: f in table ==> st.remaining[f] == Without(table[f], AllocatedIds(st.allocations))
  }

  ghost predicate Invariant<S, F>(st: State<S, F>, table: map<F, seq<S>>, students: seq<StudentPreference<S, F>>)
  {
    && Consistent(st)
    && TracksRemaining(st, table)
    && WithinCapacity(st.allocations)
    && Exclusive(st.allocations)
    && Endorsed(st.allocations, table, students)
  }

  /** Allocations only grow at the end: earlier placements are never undone. */
  predicate Extends<S(==), F(==)>(before: map<F, seq<S>>, after: map<F, seq<S>>)
  {
    forall f :: f in before ==> f in after && before[f] <= after[f]
  }

  lemma ExtendsTransitive<S, F>(a: map<F, seq<S>>, b: map<F, seq<S>>, c: map<F, seq<S>>)
    requires Extends(a, b) && Extends(b, c)
    ensures Extends(a, c)
  {
    forall f | f in a ensures f in c && a[f] <= c[f] {
      assert a[f] == b[f][..|a[f]|] && b[f] == c[f][..|b[f]|];
    }
  }

  lemma InitialInvariant<S, F>(table: map<F, seq<S>>, students: seq<StudentPreference<S, F>>)
    ensures Invariant(InitialState(table), table, students)
  {
    var st := InitialState(table);
    assert AllocatedIds(st.allocations) == {};
    forall f | f in table ensures st.remaining[f] == Without(table[f], AllocatedIds(st.allocations)) {
      WithoutNothing(table[f]);
    }
  }

  lemma ExclusiveAppend<S, F>(a: map<F, seq<S>>, f: F, s: S)
    requires Exclusive(a) && f in a && s !in AllocatedIds(a)
    ensures Exclusive(a[f := a[f] + [s]])
  {
    var a' := a[f := a[f] + [s]];
    forall g, h, i, j |
      g in a' && h in a' && 0 <= i < |a'[g]| && 0 <= j < |a'[h]| && a'[g][i] == a'[h][j]
      ensures g == h && i == j
    {
      var gNew := g == f && i == |a[f]|;
      var hNew := h == f && j == |a[f]|;
      assert !gNew ==> a'[g][i] == a[g][i] && a[g][i] in a[g];
      assert !hNew ==> a'[h][j] == a[h][j] && a[h][j] in a[h];
    }
  }

  /** Striking a newly placed student keeps each remaining list equal to the filtered input list. */
  lemma PlaceTracksRemaining<S, F>(st: State<S, F>, s: S, f: F, table: map<F, seq<S>>)
    requires TracksRemaining(st, table) && f in st.allocations
    ensures TracksRemaining(Place(st, s, f), table)
  {
    var st' := Place(st, s, f);
    var ids := AllocatedIds(st.allocations);
    AllocatedIdsAppend(st.allocations, f, s);
    forall g | g in table ensures st'.remaining[g] == Without(table[g], AllocatedIds(st'.allocations)) {
      WithoutWithout(table[g], ids, {s});
    }
  }

  /** A student placed at `f` in round `level` is on `f`'s list and chose `f`. */
  lemma PlaceEndorsed<S, F>(st: State<S, F>, sd: StudentPreference<S, F>, level: nat,
                            table: map<F, seq<S>>, students: seq<StudentPreference<S, F>>)
    requires Consistent(st) && TracksRemaining(st, table) && Endorsed(st.allocations, table, students)
    requires sd in students && level < MaxRounds
    requires CanPlace(st, sd, level)
    ensures Endorsed(Place(st, sd.student, sd.preferences[level]).allocations, table, students)
  {
    var s, f := sd.student, sd.preferences[level];
    var a' := Place(st, s, f).allocations;
    assert s in table[f] by {
      assert s in st.remaining[f];
      WithoutMember(table[f], AllocatedIds(st.allocations), s);
    }
    assert Chose(students, s, f) by {
      assert sd in students && sd.preferences[level] == f;
    }
    forall g, t | g in a' && t in a'[g]
      ensures g in table && t in table[g] && Chose(students, t, g)
    {
      if !(g == f && t == s) {
        assert t in st.allocations[g];
      }
    }
  }

  lemma AppendExtends<S, F>(a: map<F, seq<S>>, f: F, s: S)
    requires f in a
    ensures Extends(a, a[f := a[f] + [s]])
  {
    forall g | g in a ensures a[g] <= a[f := a[f] + [s]][g] {
      if g == f {
        assert a[f] == (a[f] + [s])[..|a[f]|];
      }
    }
  }

  /** A single placement keeps the invariant and only appends. */
  lemma PlacePreserves<S, F>(st: State<S, F>, sd: StudentPreference<S, F>, level: nat,
                             table: map<F, seq<S>>, students: seq<StudentPreference<S, F>>)
    requires Invariant(st, table, students)
    requires sd in students && level < MaxRounds
    requires CanPlace(st, sd, level)
    ensures Invariant(Place(st, sd.student, sd.preferences[level]), table, students)
    ensures Extends(st.allocations, Place(st, sd.student, sd.preferences[level]).allocations)
  {
    var s, f := sd.student, sd.preferences[level];
    assert s !in AllocatedIds(st.allocations) by {
      assert s in st.remaining[f];
      WithoutMember(table[f], AllocatedIds(st.allocations), s);
    }
    PlaceTracksRemaining(st, s, f, table);
    ExclusiveAppend(st.allocations, f, s);
    PlaceEndorsed(st, sd, level, table, students);
    AppendExtends(st.allocations, f, s);
  }

  lemma {:induction false} RoundPreserves<S, F>(st: State<S, F>, pending: seq<StudentPreference<S, F>>, level: nat,
                                                table: map<F, seq<S>>, students: seq<StudentPreference<S, F>>)
    requires Invariant(st, table, students)
    requires forall sd :: sd in pending ==> sd in students
    requires level < MaxRounds
    ensures Invariant(Round(st, pending, level).0, table, students)
    ensures Extends(st.allocations, Round(st, pending, level).0.allocations)
    decreases |pending|
  {
    if pending != [] {
      var sd := pending[0];
      if CanPlace(st, sd, level) {
        var st' := Place(st, sd.student, sd.preferences[level]);
        PlacePreserves(st, sd, level, table, students);
        RoundPreserves(st', pending[1..], level, table, students);
        ExtendsTransitive(st.allocations, st'.allocations, Round(st', pending[1..], level).0.allocations);
      } else {
        RoundPreserves(st, pending[1..], level, table, students);
      }
    }
  }

  lemma {:induction false} RoundsPreserves<S, F>(st: State<S, F>, pending: seq<StudentPreference<S, F>>, level: nat,
                                                 table: map<F, seq<S>>, students: seq<StudentPreference<S, F>>)
    requires Invariant(st, table, students)
    requires forall sd :: sd in pending ==> sd in students
    ensures Invariant(Rounds(st, pending, level), table, students)
    ensures Extends(st.allocations, Rounds(st, pending, level).allocations)
    decreases MaxRounds - level
  {
    if pending != [] && level < MaxRounds {
      var next, left := Round(st, pending, level).0, Round(st, pending, level).1;
      var final := Rounds(next, left, level + 1);
      RoundsStep(st, pending, level);
      RoundPreserves(st, pending, level, table, students);
      SubsequenceMembers(left, pending);
      RoundsPreserves(next, left, level + 1, table, students);
      ExtendsTransitive(st.allocations, next.allocations, final.allocations);
      assert Rounds(st, pending, level) == final;
    }
  }

  lemma AllocationInvariant<S, F>(students: seq<StudentPreference<S, F>>, table: map<F, seq<S>>)
    ensures Invariant(Allocation(students, table), table, students)
  {
    InitialInvariant(table, students);
    RoundsPreserves(InitialState(table), students, 0, table, students);
  }

  // ---------------------------------------------------------------------------
  // What the caller of the matcher can rely on
  // ---------------------------------------------------------------------------

  /** Every faculty of the table has an entry, and no faculty exceeds its capacity. */
  lemma AllocationWithinCapacity<S, F>(students: seq<StudentPreference<S, F>>, table: map<F, seq<S>>)
    ensures var a := Allocation(students, table).allocations;
      a.Keys == table.Keys && forall f :: f in a ==> |a[f]| <= MaxStudentsPerFaculty
  {
    AllocationInvariant(students, table);
  }

  /** A student is in at most one allocated list, and at most once in it. */
  lemma AllocationExclusive<S, F>(students: seq<StudentPreference<S, F>>, table: map<F, seq<S>>,
                                  f: F, g: F, i: nat, j: nat)
    requires var a := Allocation(students, table).allocations;
      f in a && g in a && i < |a[f]| && j < |a[g]| && a[f][i] == a[g][j]
    ensures f == g && i == j
  {
    AllocationInvariant(students, table);
  }

  /**
   * A student allocated to `f` is on `f`'s input list, and some row of the
   * sheet is for that student and names `f` at a rank below MaxRounds.
   */
  lemma AllocationEndorsed<S, F>(students: seq<StudentPreference<S, F>>, table: map<F, seq<S>>, f: F, s: S)
    requires var a := Allocation(students, table).allocations; f in a && s in a[f]
    ensures s in table[f] && s in StudentIds(students)
    ensures exists sd, rank ::
      (sd in students && 0 <= rank < MaxRounds && rank < |sd.preferences| &&
       sd.student == s && sd.preferences[rank] == f)
  {
    AllocationInvariant(students, table);
  }

  /** The final remaining lists are the input lists without every allocated student. */
  lemma AllocationRemaining<S, F>(students: seq<StudentPreference<S, F>>, table: map<F, seq<S>>, f: F)
    requires f in table
    ensures var r := Allocation(students, table);
      r.remaining[f] == Without(table[f], AllocatedIds(r.allocations)) && IsSubsequence(r.remaining[f], table[f])
  {
    AllocationInvariant(students, table);
    WithoutIsSubsequence(table[f], AllocatedIds(Allocation(students, table).allocations));
  }

  /**
   * A student none of whose rows names `f` among the first MaxRounds ranks is
   * never allocated to `f` (in particular a student whose rows have empty
   * preference lists is never allocated at all).
   */
  lemma NeverChosen<S, F>(students: seq<StudentPreference<S, F>>, table: map<F, seq<S>>, s: S, f: F)
    requires forall sd, rank ::
      (sd in students && sd.student == s && 0 <= rank < |sd.preferences| && rank < MaxRounds) ==> sd.preferences[rank] != f
    ensures var a := Allocation(students, table).allocations; f in a ==> s !in a[f]
  {
    AllocationInvariant(students, table);
  }

  /** A student all of whose rows have empty preference lists ends up unallocated. */
  lemma EmptyPreferencesUnallocated<S, F>(students: seq<StudentPreference<S, F>>, table: map<F, seq<S>>, s: S)
    requires s in StudentIds(students)
    requires forall sd :: sd in students && sd.student == s ==> sd.preferences == []
    ensures s in Unallocated(students, Allocation(students, table).allocations)
  {
    var a := Allocation(students, table).allocations;
    forall f | f in a ensures s !in a[f] {
      NeverChosen(students, table, s, f);
    }
  }

  /** The allocated and unallocated students split the sheet's ids between them. */
  lemma UnallocatedPartition<S, F>(students: seq<StudentPreference<S, F>>, table: map<F, seq<S>>)
    ensures var a := Allocation(students, table).allocations;
      && AllocatedIds(a) + Unallocated(students, a) == StudentIds(students)
      && AllocatedIds(a) !! Unallocated(students, a)
  {
    var a := Allocation(students, table).allocations;
    forall s | s in AllocatedIds(a) ensures s in StudentIds(students) {
      var f :| f in a && s in a[f];
      AllocationEndorsed(students, table, f, s);
    }
  }

  /** With no students nobody is allocated and nobody is left over. */
  lemma NoStudents<S, F>(table: map<F, seq<S>>)
    ensures var a := Allocation([], table).allocations;
      && (forall f :: f in a ==> a[f] == [])
      && Unallocated([], a) == {}
  {
  }

  /** With no faculty nobody is allocated and every student is left over. */
  lemma NoFaculty<S, F>(students: seq<StudentPreference<S, F>>)
    ensures var a := Allocation(students, map[]).allocations;
      && a == map[]
      && Unallocated(students, a) == StudentIds(students)
  {
    var a := Allocation(students, map[]).allocations;
    assert AllocatedIds(a) == {};
  }

  /**
   * The placement rule: offering one student in round `level` changes `f`'s
   * allocation only when `f` is the student's rank-`level` faculty, has room,
   * and has the student at the head of its remaining list; the change is an
   * append of that student.
   */
  lemma PlacementRule<S, F>(st: State<S, F>, sd: StudentPreference<S, F>, level: nat, f: F)
    requires Consistent(st) && f in st.allocations
    ensures var after := Round(st, [sd], level).0.allocations[f];
      after != st.allocations[f] ==>
        && level < |sd.preferences| && sd.preferences[level] == f
        && |st.allocations[f]| < MaxStudentsPerFaculty
        && st.remaining[f] != [] && st.remaining[f][0] == sd.student
        && after == st.allocations[f] + [sd.student]
  {
    assert [sd][1..] == [];
  }

  /** A round only adds to the set of allocated ids. */
  lemma {:induction false} RoundAllocatesMore<S, F>(st: State<S, F>, pending: seq<StudentPreference<S, F>>, level: nat)
    requires Consistent(st)
    ensures AllocatedIds(st.allocations) <= AllocatedIds(Round(st, pending, level).0.allocations)
    decreases |pending|
  {
    if pending != [] {
      var sd := pending[0];
      if CanPlace(st, sd, level) {
        AllocatedIdsAppend(st.allocations, sd.preferences[level], sd.student);
        RoundAllocatesMore(Place(st, sd.student, sd.preferences[level]), pending[1..], level);
      } else {
        RoundAllocatesMore(st, pending[1..], level);
      }
    }
  }

  /**
   * Every pending row whose student is still unallocated after the round is
   * carried over. A row whose student was placed through another, identical
   * row may be carried over too; the allocation does not depend on it, since
   * a struck student never heads a list again.
   */
  lemma {:induction false} RoundCarriesUnplaced<S, F>(st: State<S, F>, pending: seq<StudentPreference<S, F>>, level: nat)
    requires Consistent(st)
    ensures var r := Round(st, pending, level);
      forall sd :: sd in pending && sd.student !in AllocatedIds(r.0.allocations) ==> sd in r.1
    decreases |pending|
  {
    if pending != [] {
      var sd, rest := pending[0], pending[1..];
      var r := Round(st, pending, level);
      assert pending == [sd] + rest;
      if CanPlace(st, sd, level) {
        var st' := Place(st, sd.student, sd.preferences[level]);
        AllocatedIdsAppend(st.allocations, sd.preferences[level], sd.student);
        RoundAllocatesMore(st', rest, level);
        RoundCarriesUnplaced(st', rest, level);
        assert r == Round(st', rest, level);
      } else {
        RoundCarriesUnplaced(st, rest, level);
        assert r.1 == [sd] + Round(st, rest, level).1;
      }
    }
  }

  /**
   * The students carried over by a round keep the order they were pending in,
   * and every row whose student is still unallocated is among them.
   */
  lemma RoundKeepsOrder<S, F>(st: State<S, F>, pending: seq<StudentPreference<S, F>>, level: nat)
    requires Consistent(st)
    ensures var r := Round(st, pending, level);
      && IsSubsequence(r.1, pending) && multiset(r.1) <= multiset(pending)
      && forall sd :: sd in pending && sd.student !in AllocatedIds(r.0.allocations) ==> sd in r.1
  {
    SubsequenceMultiset(Round(st, pending, level).1, pending);
    RoundCarriesUnplaced(st, pending, level);
  }
}
