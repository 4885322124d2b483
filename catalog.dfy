/**
 * The catalog the day view reads: projects with a per-weekday allocation of
 * hours, custom routines with their weekdays, and each date's tasks. The
 * scheduler only reads these; the filters below select what a date needs.
 */
module Catalog {
  import opened Optional

  /** A calendar date, counted in days from 1970-01-01 (a Thursday). */
  type Day = int

  /** Date.getDay(): 0 is Sunday, 6 is Saturday. */
  function Weekday(d: Day): (w: nat)
    ensures w < 7
  {
    (d + 4) % 7
  }

  /** The identifier of a task, project or routine, in its String() form. */
  type ActivityRef = string

  /** Planned hours for one weekday, in tenths of an hour (25 is 2.5 h). */
  datatype Allocation = Allocation(day: int, hours: int)

  /** A project; a start or end date that does not parse is None. */
  datatype Project = Project(
    id: ActivityRef,
    title: string,
    startDate: Option<Day>,
    endDate: Option<Day>,
    timeAllocation: seq<Allocation>,
    completed: bool)

  datatype Routine = Routine(id: ActivityRef, name: string, icon: string, days: seq<int>)

  datatype Task = Task(id: ActivityRef, text: string, completed: bool)

  datatype Catalog = Catalog(
    projects: seq<Project>,
    customRoutines: seq<Routine>,
    dailyTasks: map<Day, seq<Task>>)

  predicate HasAllocationFor(allocs: seq<Allocation>, day: int)
  {
    exists i :: 0 <= i < |allocs| && allocs[i].day == day
  }

  /**
   * The date lies in the project's inclusive window. A bound that is an
   * invalid date compares false both ways, so it rejects nothing.
   */
  predicate InWindow(p: Project, date: Day)
  {
    && (p.startDate.None? || p.startDate.value <= date)
    && (p.endDate.None? || date <= p.endDate.value)
  }

  predicate ScheduledOn(p: Project, date: Day)
  {
    !p.completed && InWindow(p, date) && HasAllocationFor(p.timeAllocation, Weekday(date))
  }

  /** getProjectsForDate: the projects of the catalog that a date schedules, in order. */
  function ProjectsForDate(projects: seq<Project>, date: Day): (r: seq<Project>)
    ensures |r| <= |projects|
  {
    if projects == [] then []
    else
      var rest := ProjectsForDate(projects[1..], date);
      if ScheduledOn(projects[0], date) then [projects[0]] + rest else rest
  }

  /**
   * A project is kept exactly when it is open, its window contains the date
   * and it has an allocation entry for the date's weekday.
   */
  lemma {:induction false} ProjectsForDateMembers(projects: seq<Project>, date: Day)
    ensures forall p :: p in ProjectsForDate(projects, date) <==> p in projects && ScheduledOn(p, date)
  {
    if projects != [] {
      ProjectsForDateMembers(projects[1..], date);
      assert forall p :: p in projects <==> p == projects[0] || p in projects[1..];
    }
  }

  /** The hours of the first allocation entry for a weekday (Array.prototype.find). */
  function FirstAllocation(allocs: seq<Allocation>, day: int): (r: Option<int>)
    ensures r.Some? ==> Allocation(day, r.value) in allocs
  {
    if allocs == [] then None
    else if allocs[0].day == day then Some(allocs[0].hours)
    else FirstAllocation(allocs[1..], day)
  }

  /** `find` yields nothing exactly when no entry has the day, and otherwise the first entry's hours. */
  lemma {:induction false} FirstAllocationSpec(allocs: seq<Allocation>, day: int)
    ensures FirstAllocation(allocs, day).None? <==> !HasAllocationFor(allocs, day)
    ensures FirstAllocation(allocs, day).Some?
        ==> exists i :: 0 <= i < |allocs| && allocs[i] == Allocation(day, FirstAllocation(allocs, day).value)
                        && forall j :: 0 <= j < i ==> allocs[j].day != day
  {
    if allocs != [] && allocs[0].day != day {
      FirstAllocationSpec(allocs[1..], day);
      assert HasAllocationFor(allocs, day) <==> HasAllocationFor(allocs[1..], day) by {
        if HasAllocationFor(allocs, day) {
          var i :| 0 <= i < |allocs| && allocs[i].day == day;
          assert allocs[1..][i - 1] == allocs[i];
        }
      }
      var r := FirstAllocation(allocs[1..], day);
      if r.Some? {
        var i :| 0 <= i < |allocs[1..]| && allocs[1..][i] == Allocation(day, r.value)
                 && forall j :: 0 <= j < i ==> allocs[1..][j].day != day;
        assert allocs[i + 1] == allocs[1..][i];
        forall j | 0 <= j < i + 1 ensures allocs[j].day != day {
          if j > 0 { assert allocs[j] == allocs[1..][j - 1]; }
        }
      }
    } else if allocs != [] {
      assert allocs[0] == Allocation(day, allocs[0].hours);
    }
  }

  /** getProjectHoursForDate: the hours of the first entry for the date's weekday, or 0 without one. */
  function ProjectHoursForDate(p: Project, date: Day): (r: int)
  {
    FirstAllocation(p.timeAllocation, Weekday(date)).GetOr(0)
  }

  lemma ProjectHoursForDateSpec(p: Project, date: Day)
    ensures !HasAllocationFor(p.timeAllocation, Weekday(date)) ==> ProjectHoursForDate(p, date) == 0
    ensures HasAllocationFor(p.timeAllocation, Weekday(date))
        ==> exists i :: 0 <= i < |p.timeAllocation|
                     && p.timeAllocation[i] == Allocation(Weekday(date), ProjectHoursForDate(p, date))
                     && forall j :: 0 <= j < i ==> p.timeAllocation[j].day != Weekday(date)
  {
    FirstAllocationSpec(p.timeAllocation, Weekday(date));
  }

  /** getCustomRoutinesForDay: the routines whose days include the date's weekday, in order. */
  function CustomRoutinesForDay(routines: seq<Routine>, date: Day): (r: seq<Routine>)
    ensures |r| <= |routines|
  {
    if routines == [] then []
    else
      var rest := CustomRoutinesForDay(routines[1..], date);
      if Weekday(date) in routines[0].days then [routines[0]] + rest else rest
  }

  /** A routine is kept exactly when its days include the date's weekday. */
  lemma {:induction false} CustomRoutinesForDayMembers(routines: seq<Routine>, date: Day)
    ensures forall x :: x in CustomRoutinesForDay(routines, date) <==> x in routines && Weekday(date) in x.days
  {
    if routines != [] {
      CustomRoutinesForDayMembers(routines[1..], date);
      assert forall x :: x in routines <==> x == routines[0] || x in routines[1..];
    }
  }

  /** `dailyTasks[dateKey] || []`. */
  function TasksForDate(c: Catalog, date: Day): (r: seq<Task>)
    ensures date !in c.dailyTasks ==> r == []
  {
    if date in c.dailyTasks then c.dailyTasks[date] else []
  }
}
