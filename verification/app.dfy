/**
 * The matcher as the web application runs it: the faculty preference table is
 * a mutable object that the matcher edits in place, the allocation is built up
 * by appending, and the pending students are rebuilt round by round.
 */
module App {
  import opened AllocationSpec

  /** The parsed faculty sheet: each faculty's ranked list of students. */
  class FacultyPreferences<S(==), F(==)> {
    var lists: map<F, seq<S>>

    constructor (lists: map<F, seq<S>>)
      ensures this.lists == lists
    {
      this.lists := lists;
    }

    /** Rewrites every faculty's list, one faculty at a time, without `s`. */
    method RemoveStudent(s: S)
      modifies this
      ensures lists == RemoveEverywhere(old(lists), s)
    {
      ghost var before := lists;
      var todo := lists.Keys;
      while todo != {}
        invariant todo <= before.Keys && lists.Keys == before.Keys
        invariant forall f :: f in before ==>
          lists[f] == if f in todo then before[f] else Without(before[f], {s})
        decreases todo
      {
        var f :| f in todo;
        lists := lists[f := Without(lists[f], {s})];
        todo := todo - {f};
      }
    }

    /**
     * Runs at most MaxRounds rounds over the students and returns the
     * allocation; the table is left holding each faculty's remaining list.
     */
    method AllocateStudents(students: seq<StudentPreference<S, F>>) returns (allocations: map<F, seq<S>>)
      modifies this
      ensures allocations == Allocation(students, old(lists)).allocations
      ensures lists == Allocation(students, old(lists)).remaining
    {
      allocations := map f | f in lists :: [];
      var pending := students;
      var level := 0;
      while pending != [] && level < MaxRounds
        invariant level <= MaxRounds
        invariant lists.Keys == allocations.Keys
        invariant Rounds(State(lists, allocations), pending, level) == Allocation(students, old(lists))
        decreases MaxRounds - level
      {
        RoundsStep(State(lists, allocations), pending, level);
        allocations, pending := RunRound(allocations, pending, level);
        level := level + 1;
      }
    }

    /**
     * One round: offers each pending student, in order, to their rank-`level`
     * faculty; returns the new allocation and the students carried over.
     */
    method RunRound(allocations: map<F, seq<S>>, pending: seq<StudentPreference<S, F>>, level: nat)
      returns (next: map<F, seq<S>>, left: seq<StudentPreference<S, F>>)
      requires lists.Keys == allocations.Keys
      modifies this
      ensures (State(lists, next), left) == Round(State(old(lists), allocations), pending, level)
    {
      ghost var target := Round(State(lists, allocations), pending, level);
      next, left := allocations, [];
      for i := 0 to |pending|
        invariant lists.Keys == next.Keys
        invariant Round(State(lists, next), pending[i..], level).0 == target.0
        invariant left + Round(State(lists, next), pending[i..], level).1 == target.1
      {
        var sd := pending[i];
        ghost var cur, rest := State(lists, next), pending[i + 1..];
        assert pending[i..] == [sd] + rest;
        RoundStep(cur, sd, rest, level);
        var placed;
        next, placed := Offer(next, sd, level);
        if !placed {
          assert (left + [sd]) + Round(cur, rest, level).1 == left + ([sd] + Round(cur, rest, level).1);
          left := left + [sd];
        }
      }
      assert pending[|pending|..] == [];
      assert Round(State(lists, next), [], level) == (State(lists, next), []);
      assert left + [] == left;
    }

    /**
     * Offers one student to their rank-`level` faculty: places them when the
     * faculty is known, has a non-empty list and room, and has them at the head.
     */
    method Offer(allocations: map<F, seq<S>>, sd: StudentPreference<S, F>, level: nat)
      returns (next: map<F, seq<S>>, placed: bool)
      requires lists.Keys == allocations.Keys
      modifies this
      ensures placed == CanPlace(State(old(lists), allocations), sd, level)
      ensures State(lists, next) ==
        if placed then Place(State(old(lists), allocations), sd.student, sd.preferences[level])
        else State(old(lists), allocations)
    {
      next, placed := allocations, false;
      var student := sd.student;
      if level < |sd.preferences| {
        var preferred := sd.preferences[level];
        if preferred in lists {
          if |lists[preferred]| > 0 && |next[preferred]| < MaxStudentsPerFaculty {
            var first := lists[preferred][0];
            if student == first {
              next := next[preferred := next[preferred] + [student]];
              RemoveStudent(student);
              placed := true;
            }
          }
        }
      }
    }
  }

  /**
   * One allocation run: match the students against a fresh copy of the faculty
   * table, then collect the students of the sheet that no faculty took.
   */
  method Allocate<S(==), F(==)>(students: seq<StudentPreference<S, F>>, table: map<F, seq<S>>)
    returns (allocations: map<F, seq<S>>, unallocated: set<S>)
    ensures allocations == Allocation(students, table).allocations
    ensures allocations.Keys == table.Keys
    ensures forall f :: f in allocations ==> |allocations[f]| <= MaxStudentsPerFaculty
    ensures forall f, s :: f in allocations && s in allocations[f] ==> s in table[f]
    ensures Exclusive(allocations)
    ensures AllocatedIds(allocations) + unallocated == StudentIds(students)
    ensures AllocatedIds(allocations) !! unallocated
  {
    var faculty := new FacultyPreferences(table);
    allocations := faculty.AllocateStudents(students);
    unallocated := Unallocated(students, allocations);
    AllocationInvariant(students, table);
    UnallocatedPartition(students, table);
  }
}
