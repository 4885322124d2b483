/**
 * The editing forms' pure state updates: the per-weekday hours editor of the
 * project form, the weekday toggle of the routine form and the weekday toggle
 * of the workout-sheet form. Each returns the new value from the old one.
 */
module Forms {
  import opened Optional
  import opened Catalog

  // ---------------------------------------------------------------------------
  // Project form: updateProjectTimeAllocation

  /** `allocs.filter(t => t.day !== day)`. */
  function WithoutDay(allocs: seq<Allocation>, day: int): (r: seq<Allocation>)
    ensures |r| <= |allocs|
    ensures forall a :: a in r <==> a in allocs && a.day != day
  {
    if allocs == [] then []
    else
      var rest := WithoutDay(allocs[1..], day);
      assert forall a :: a in allocs <==> a == allocs[0] || a in allocs[1..];
      if allocs[0].day != day then [allocs[0]] + rest else rest
  }

  /** `allocs.map(t => t.day === day ? { day, hours } : t)`. */
  function SetHours(allocs: seq<Allocation>, day: int, hours: int): (r: seq<Allocation>)
    ensures |r| == |allocs|
    ensures forall i :: 0 <= i < |r| ==> r[i].day == allocs[i].day
  {
    if allocs == [] then []
    else [if allocs[0].day == day then Allocation(day, hours) else allocs[0]] + SetHours(allocs[1..], day, hours)
  }

  /**
   * updateProjectTimeAllocation: with an entry for the day, 0 hours removes
   * it and other hours replace it; without one, positive hours are appended
   * and anything else leaves the list as it was.
   */
  function UpdateProjectTimeAllocation(allocs: seq<Allocation>, day: int, hours: int): (r: seq<Allocation>)
  {
    if HasAllocationFor(allocs, day) then
      if hours == 0 then WithoutDay(allocs, day) else SetHours(allocs, day, hours)
    else if hours > 0 then allocs + [Allocation(day, hours)]
    else allocs
  }

  predicate UniqueDays(allocs: seq<Allocation>)
  {
    forall i, j :: 0 <= i < j < |allocs| ==> allocs[i].day != allocs[j].day
  }

  lemma {:induction false} SetHoursEntries(allocs: seq<Allocation>, day: int, hours: int)
    ensures forall i :: 0 <= i < |allocs| ==>
              SetHours(allocs, day, hours)[i] == if allocs[i].day == day then Allocation(day, hours) else allocs[i]
  {
    if allocs != [] {
      SetHoursEntries(allocs[1..], day, hours);
      forall i | 0 < i < |allocs|
        ensures SetHours(allocs, day, hours)[i] == SetHours(allocs[1..], day, hours)[i - 1]
      {
      }
    }
  }

  lemma {:induction false} WithoutDayOfSetHours(allocs: seq<Allocation>, day: int, hours: int)
    ensures WithoutDay(SetHours(allocs, day, hours), day) == WithoutDay(allocs, day)
  {
    if allocs != [] {
      WithoutDayOfSetHours(allocs[1..], day, hours);
      assert SetHours(allocs, day, hours)[1..] == SetHours(allocs[1..], day, hours);
    }
  }

  lemma {:induction false} WithoutDayIdempotent(allocs: seq<Allocation>, day: int)
    ensures WithoutDay(WithoutDay(allocs, day), day) == WithoutDay(allocs, day)
  {
    if allocs != [] {
      WithoutDayIdempotent(allocs[1..], day);
    }
  }

  lemma {:induction false} WithoutDayAppend(allocs: seq<Allocation>, a: Allocation, day: int)
    requires a.day == day
    ensures WithoutDay(allocs + [a], day) == WithoutDay(allocs, day)
  {
    if allocs == [] {
      assert WithoutDay([a], day) == WithoutDay([a][1..], day);
    } else {
      assert (allocs + [a])[1..] == allocs[1..] + [a];
      WithoutDayAppend(allocs[1..], a, day);
    }
  }

  lemma {:induction false} WithoutDayKeepsUniqueDays(allocs: seq<Allocation>, day: int)
    requires UniqueDays(allocs)
    ensures UniqueDays(WithoutDay(allocs, day))
  {
    if allocs != [] {
      WithoutDayKeepsUniqueDays(allocs[1..], day);
      var rest := WithoutDay(allocs[1..], day);
      forall j | 0 <= j < |rest| ensures rest[j].day != allocs[0].day {
        assert rest[j] in allocs[1..];
      }
    }
  }

  /**
   * After the update the day's entry holds the new hours, except that 0
   * hours, or negative hours for a day without an entry, leave the day with
   * no entry at all.
   */
  lemma UpdateSetsDay(allocs: seq<Allocation>, day: int, hours: int)
    ensures FirstAllocation(UpdateProjectTimeAllocation(allocs, day, hours), day)
         == if hours == 0 || (!HasAllocationFor(allocs, day) && hours < 0) then None else Some(hours)
  {
    var r := UpdateProjectTimeAllocation(allocs, day, hours);
    FirstAllocationSpec(r, day);
    FirstAllocationSpec(allocs, day);
    if HasAllocationFor(allocs, day) && hours != 0 {
      SetHoursEntries(allocs, day, hours);
      var i :| 0 <= i < |allocs| && allocs[i].day == day;
      assert r[i].day == day;
    } else if hours > 0 && !HasAllocationFor(allocs, day) {
      assert r[|allocs|] == Allocation(day, hours);
    }
  }

  /** Every entry for another weekday is kept, in order, whatever the update. */
  lemma UpdateKeepsOtherDays(allocs: seq<Allocation>, day: int, hours: int)
    ensures WithoutDay(UpdateProjectTimeAllocation(allocs, day, hours), day) == WithoutDay(allocs, day)
  {
    if HasAllocationFor(allocs, day) {
      if hours == 0 {
        WithoutDayIdempotent(allocs, day);
      } else {
        WithoutDayOfSetHours(allocs, day, hours);
      }
    } else if hours > 0 {
      WithoutDayAppend(allocs, Allocation(day, hours), day);
    }
  }

  /** The editor keeps at most one entry per weekday. */
  lemma UpdateKeepsUniqueDays(allocs: seq<Allocation>, day: int, hours: int)
    requires UniqueDays(allocs)
    ensures UniqueDays(UpdateProjectTimeAllocation(allocs, day, hours))
  {
    if HasAllocationFor(allocs, day) {
      if hours == 0 {
        WithoutDayKeepsUniqueDays(allocs, day);
      }
    } else if hours > 0 {
      var r := allocs + [Allocation(day, hours)];
      forall i, j | 0 <= i < j < |r| ensures r[i].day != r[j].day {
        if j == |allocs| {
          assert r[i] == allocs[i];
        }
      }
    }
  }

  /** The editor never stores an entry of 0 hours. */
  lemma UpdateNeverStoresZero(allocs: seq<Allocation>, day: int, hours: int)
    requires forall a :: a in allocs ==> a.hours != 0
    ensures forall a :: a in UpdateProjectTimeAllocation(allocs, day, hours) ==> a.hours != 0
  {
    if HasAllocationFor(allocs, day) && hours != 0 {
      SetHoursEntries(allocs, day, hours);
      forall a | a in SetHours(allocs, day, hours) ensures a.hours != 0 {
        var i :| 0 <= i < |allocs| && SetHours(allocs, day, hours)[i] == a;
        assert allocs[i] in allocs;
      }
    }
  }

  // ---------------------------------------------------------------------------
  // Routine form: toggleRoutineDay

  /** `days.filter(d => d !== day)`. */
  function Remove(days: seq<int>, day: int): (r: seq<int>)
    ensures |r| <= |days|
    ensures forall d :: d in r <==> d in days && d != day
  {
    if days == [] then []
    else
      var rest := Remove(days[1..], day);
      assert forall d :: d in days <==> d == days[0] || d in days[1..];
      if days[0] != day then [days[0]] + rest else rest
  }

  /** toggleRoutineDay: removes every copy of a selected day, or appends an unselected one. */
  function ToggleRoutineDay(days: seq<int>, day: int): (r: seq<int>)
  {
    if day in days then Remove(days, day) else days + [day]
  }

  predicate NoDuplicates(days: seq<int>)
  {
    forall i, j :: 0 <= i < j < |days| ==> days[i] != days[j]
  }

  lemma {:induction false} RemoveAbsent(days: seq<int>, day: int)
    requires day !in days
    ensures Remove(days, day) == days
  {
    if days != [] {
      assert day !in days[1..];
      RemoveAbsent(days[1..], day);
      assert days == [days[0]] + days[1..];
    }
  }

  lemma {:induction false} RemoveAppended(days: seq<int>, day: int)
    ensures Remove(days + [day], day) == Remove(days, day)
  {
    if days == [] {
      assert Remove([day], day) == Remove([day][1..], day);
    } else {
      assert (days + [day])[1..] == days[1..] + [day];
      RemoveAppended(days[1..], day);
    }
  }

  lemma {:induction false} RemoveKeepsNoDuplicates(days: seq<int>, day: int)
    requires NoDuplicates(days)
    ensures NoDuplicates(Remove(days, day))
  {
    if days != [] {
      RemoveKeepsNoDuplicates(days[1..], day);
      var rest := Remove(days[1..], day);
      forall j | 0 <= j < |rest| ensures rest[j] != days[0] {
        assert rest[j] in days[1..];
      }
    }
  }

  /** The toggle flips the day's membership and keeps every other day's. */
  lemma ToggleRoutineDayMembers(days: seq<int>, day: int)
    ensures forall d :: d in ToggleRoutineDay(days, day) <==> if d == day then day !in days else d in days
  {
  }

  /**
   * Toggling an unselected day twice restores the list, and the toggle never
   * introduces a duplicate.
   */
  lemma ToggleRoutineDayTwice(days: seq<int>, day: int)
    ensures day !in days ==> ToggleRoutineDay(ToggleRoutineDay(days, day), day) == days
    ensures NoDuplicates(days) ==> NoDuplicates(ToggleRoutineDay(days, day))
  {
    if day !in days {
      RemoveAppended(days, day);
      RemoveAbsent(days, day);
    }
    if NoDuplicates(days) {
      if day in days {
        RemoveKeepsNoDuplicates(days, day);
      } else {
        var r := days + [day];
        forall i, j | 0 <= i < j < |r| ensures r[i] != r[j] {
          if j == |days| {
            assert r[i] == days[i];
          }
        }
      }
    }
  }

  // ---------------------------------------------------------------------------
  // Workout-sheet form: toggleDaySelection

  predicate Sorted(s: seq<int>)
  {
    forall i, j :: 0 <= i < j < |s| ==> s[i] <= s[j]
  }

  /** Inserting x into a sorted list in front of the first larger element. */
  function Insert(s: seq<int>, x: int): (r: seq<int>)
  {
    if s == [] || x <= s[0] then [x] + s else [s[0]] + Insert(s[1..], x)
  }

  /** `.sort((a, b) => a - b)`: ascending numeric order. */
  function SortAscending(s: seq<int>): (r: seq<int>)
  {
    if s == [] then [] else Insert(SortAscending(s[..|s| - 1]), s[|s| - 1])
  }

  lemma {:induction false} InsertMembers(s: seq<int>, x: int)
    ensures |Insert(s, x)| == |s| + 1
    ensures forall y :: y in Insert(s, x) <==> y in s || y == x
    ensures multiset(Insert(s, x)) == multiset(s) + multiset{x}
  {
    if s != [] && x > s[0] {
      InsertMembers(s[1..], x);
      assert s == [s[0]] + s[1..];
    }
  }

  lemma {:induction false} InsertSpec(s: seq<int>, x: int)
    requires Sorted(s)
    ensures Sorted(Insert(s, x))
    ensures multiset(Insert(s, x)) == multiset(s) + multiset{x}
  {
    InsertMembers(s, x);
    if s != [] && x > s[0] {
      var tail := s[1..];
      InsertSpec(tail, x);
      InsertMembers(tail, x);
      var r := Insert(tail, x);
      forall j | 0 <= j < |r| ensures s[0] <= r[j] {
        assert r[j] in r;
      }
      assert Insert(s, x) == [s[0]] + r;
    }
  }

  /** The sort returns an ascending permutation of its input. */
  lemma {:induction false} SortAscendingSpec(s: seq<int>)
    ensures Sorted(SortAscending(s))
    ensures multiset(SortAscending(s)) == multiset(s)
    decreases |s|
  {
    if s != [] {
      SortAscendingSpec(s[..|s| - 1]);
      InsertSpec(SortAscending(s[..|s| - 1]), s[|s| - 1]);
      assert s == s[..|s| - 1] + [s[|s| - 1]];
    }
  }

  /** toggleDaySelection: removes a selected day, or adds an unselected one and sorts. */
  function ToggleDaySelection(giorni: seq<int>, day: int): (r: seq<int>)
  {
    if day in giorni then Remove(giorni, day) else SortAscending(giorni + [day])
  }

  lemma {:induction false} RemoveKeepsSorted(s: seq<int>, day: int)
    requires Sorted(s)
    ensures Sorted(Remove(s, day))
  {
    if s != [] {
      RemoveKeepsSorted(s[1..], day);
      var rest := Remove(s[1..], day);
      forall j | 0 <= j < |rest| ensures s[0] <= rest[j] {
        assert rest[j] in s[1..];
      }
    }
  }

  /**
   * The toggle flips the day's membership and keeps the others; an added day
   * lands in an ascending list holding the old days plus that one, and a
   * sorted list stays sorted either way.
   */
  lemma ToggleDaySelectionSpec(giorni: seq<int>, day: int)
    ensures forall d :: d in ToggleDaySelection(giorni, day) <==> if d == day then day !in giorni else d in giorni
    ensures day !in giorni
        ==> (Sorted(ToggleDaySelection(giorni, day))
             && multiset(ToggleDaySelection(giorni, day)) == multiset(giorni) + multiset{day})
    ensures Sorted(giorni) ==> Sorted(ToggleDaySelection(giorni, day))
  {
    if day in giorni {
      if Sorted(giorni) {
        RemoveKeepsSorted(giorni, day);
      }
    } else {
      SortAscendingSpec(giorni + [day]);
      var r := ToggleDaySelection(giorni, day);
      forall d ensures d in r <==> d in giorni + [day] {
        assert d in r <==> d in multiset(r);
        assert d in giorni + [day] <==> d in multiset(giorni + [day]);
      }
    }
  }
}
