/**
 * The cards getAvailableActivityCards offers for a date: each scheduled
 * project split into 1-hour fragments plus a remainder, consumed by the count
 * of placed project blocks; one 1-hour card per routine of the weekday and
 * one half-hour card per incomplete task that has no block yet. These are the
 * specification functions the Planner's resolver method is proved against.
 */
module Resolver {
  import opened Optional
  import opened Catalog
  import opened Blocks

  /** An unplaced activity fragment; its duration is in tenths of an hour. */
  datatype ActivityCard = ActivityCard(
    activityType: ActivityType,
    id: ActivityRef,
    title: string,
    duration: int,
    cardIndex: Option<int>)

  /** `blocks.filter(b => b.activityType === t && String(b.activityId) === String(ref)).length`. */
  function PlacedCount(blocks: seq<TimeBlock>, t: ActivityType, ref: ActivityRef): (r: nat)
    ensures r <= |blocks|
    ensures r == 0 <==> !IsPlaced(blocks, t, ref)
  {
    if blocks == [] then 0
    else PlacedCount(blocks[..|blocks| - 1], t, ref)
         + (if blocks[|blocks| - 1].activityType == t && blocks[|blocks| - 1].activityId == ref then 1 else 0)
  }

  /** `blocks.some(b => b.activityType === t && String(b.activityId) === String(ref))`. */
  predicate IsPlaced(blocks: seq<TimeBlock>, t: ActivityType, ref: ActivityRef)
  {
    exists i :: 0 <= i < |blocks| && blocks[i].activityType == t && blocks[i].activityId == ref
  }

  /** Math.floor of the hours, for hours in tenths (Dafny's / rounds down). */
  function FullHours(hours: int): (r: int)
    ensures r * 10 <= hours < r * 10 + 10
  {
    hours / 10
  }

  /** The hours left after the full ones, in tenths: 0 to 9. */
  function Remainder(hours: int): (r: int)
    ensures 0 <= r < 10 && FullHours(hours) * 10 + r == hours
  {
    hours % 10
  }

  /** totalCards: the full hours plus one for a non-zero remainder. */
  function TotalFragments(hours: int): (r: int)
  {
    FullHours(hours) + (if Remainder(hours) > 0 then 1 else 0)
  }

  function ProjectCard(p: Project, duration: int, index: int): (r: ActivityCard)
  {
    ActivityCard(ProjectActivity, p.id, p.title, duration, Some(index))
  }

  /** The 1-hour cards with indices lo .. hi - 1, in that order. */
  function FullCards(p: Project, lo: int, hi: int): (r: seq<ActivityCard>)
    decreases hi - lo
  {
    if hi <= lo then [] else FullCards(p, lo, hi - 1) + [ProjectCard(p, 10, hi - 1)]
  }

  /** The cards of one project with `placed` of its blocks already on the date. */
  function ProjectCards(p: Project, hours: int, placed: nat): (r: seq<ActivityCard>)
  {
    FullCards(p, placed, FullHours(hours))
    + (if Remainder(hours) > 0 && placed < TotalFragments(hours)
       then [ProjectCard(p, Remainder(hours), FullHours(hours))] else [])
  }

  /** Cards of the projects ps, in order. */
  function ProjectSection(ps: seq<Project>, blocks: seq<TimeBlock>, date: Day): (r: seq<ActivityCard>)
  {
    if ps == [] then []
    else
      var p := ps[|ps| - 1];
      ProjectSection(ps[..|ps| - 1], blocks, date)
      + ProjectCards(p, ProjectHoursForDate(p, date), PlacedCount(blocks, ProjectActivity, p.id))
  }

  function RoutineCard(r: Routine): (result: ActivityCard)
  {
    ActivityCard(RoutineActivity, r.id, r.icon + " " + r.name, 10, None)
  }

  /** One card per routine of rs that has no routine block yet, in order. */
  function RoutineSection(rs: seq<Routine>, blocks: seq<TimeBlock>): (r: seq<ActivityCard>)
  {
    if rs == [] then []
    else
      var r := rs[|rs| - 1];
      RoutineSection(rs[..|rs| - 1], blocks)
      + (if !IsPlaced(blocks, RoutineActivity, r.id) then [RoutineCard(r)] else [])
  }

  function TaskCard(t: Task): (r: ActivityCard)
  {
    ActivityCard(TaskActivity, t.id, t.text, 5, None)
  }

  /** One card per incomplete task of ts that has no task block yet, in order. */
  function TaskSection(ts: seq<Task>, blocks: seq<TimeBlock>): (r: seq<ActivityCard>)
  {
    if ts == [] then []
    else
      var t := ts[|ts| - 1];
      TaskSection(ts[..|ts| - 1], blocks)
      + (if !t.completed && !IsPlaced(blocks, TaskActivity, t.id) then [TaskCard(t)] else [])
  }

  /** Every card of the date: projects first, then routines, then tasks. */
  function AvailableCards(blocks: seq<TimeBlock>, c: Catalog, date: Day): (r: seq<ActivityCard>)
  {
    ProjectSection(ProjectsForDate(c.projects, date), blocks, date)
    + RoutineSection(CustomRoutinesForDay(c.customRoutines, date), blocks)
    + TaskSection(TasksForDate(c, date), blocks)
  }

  // ---------------------------------------------------------------------------
  // One more element of each section, as a loop over the list adds it

  lemma ProjectSectionStep(ps: seq<Project>, n: nat, blocks: seq<TimeBlock>, date: Day)
    requires n < |ps|
    ensures ProjectSection(ps[..n + 1], blocks, date)
         == ProjectSection(ps[..n], blocks, date)
            + ProjectCards(ps[n], ProjectHoursForDate(ps[n], date), PlacedCount(blocks, ProjectActivity, ps[n].id))
  {
    assert ps[..n + 1][..n] == ps[..n];
  }

  lemma RoutineSectionStep(rs: seq<Routine>, n: nat, blocks: seq<TimeBlock>)
    requires n < |rs|
    ensures RoutineSection(rs[..n + 1], blocks)
         == RoutineSection(rs[..n], blocks)
            + (if !IsPlaced(blocks, RoutineActivity, rs[n].id) then [RoutineCard(rs[n])] else [])
  {
    assert rs[..n + 1][..n] == rs[..n];
  }

  lemma TaskSectionStep(ts: seq<Task>, n: nat, blocks: seq<TimeBlock>)
    requires n < |ts|
    ensures TaskSection(ts[..n + 1], blocks)
         == TaskSection(ts[..n], blocks)
            + (if !ts[n].completed && !IsPlaced(blocks, TaskActivity, ts[n].id) then [TaskCard(ts[n])] else [])
  {
    assert ts[..n + 1][..n] == ts[..n];
  }

  // ---------------------------------------------------------------------------
  // Properties of the project split

  lemma {:induction false} FullCardsShape(p: Project, lo: int, hi: int)
    ensures |FullCards(p, lo, hi)| == if lo < hi then hi - lo else 0
    ensures forall k :: 0 <= k < |FullCards(p, lo, hi)| ==> FullCards(p, lo, hi)[k] == ProjectCard(p, 10, lo + k)
    decreases hi - lo
  {
    if lo < hi {
      FullCardsShape(p, lo, hi - 1);
    }
  }

  /**
   * A project of h tenths with `placed` blocks yields max(0, total - placed)
   * cards: 1-hour cards with indices placed .. full - 1, then the remainder
   * card with index full if the remainder is non-zero and not yet consumed.
   */
  lemma ProjectCardsShape(p: Project, hours: int, placed: nat)
    ensures var total := TotalFragments(hours);
            |ProjectCards(p, hours, placed)| == if placed < total then total - placed else 0
    ensures var full := FullHours(hours);
            forall k :: 0 <= k < |ProjectCards(p, hours, placed)| && placed + k < full
              ==> ProjectCards(p, hours, placed)[k] == ProjectCard(p, 10, placed + k)
    ensures var cards := ProjectCards(p, hours, placed);
            forall k :: 0 <= k < |cards| && placed + k >= FullHours(hours)
              ==> k == |cards| - 1 && cards[k] == ProjectCard(p, Remainder(hours), FullHours(hours))
  {
    FullCardsShape(p, placed, FullHours(hours));
  }

  /** Cards still offered plus blocks placed is the fragment total, once nothing is over-placed. */
  lemma ProjectCardsComplement(p: Project, hours: int, placed: nat)
    requires placed <= TotalFragments(hours)
    ensures |ProjectCards(p, hours, placed)| + placed == TotalFragments(hours)
  {
    ProjectCardsShape(p, hours, placed);
  }

  /** 2.5 hours: three cards (1 h, 1 h, 0.5 h); two after one placement; none after three. */
  lemma TwoAndAHalfHours(p: Project)
    ensures ProjectCards(p, 25, 0)
         == [ProjectCard(p, 10, 0), ProjectCard(p, 10, 1), ProjectCard(p, 5, 2)]
    ensures ProjectCards(p, 25, 1) == [ProjectCard(p, 10, 1), ProjectCard(p, 5, 2)]
    ensures ProjectCards(p, 25, 3) == []
  {
    assert FullCards(p, 0, 2) == [ProjectCard(p, 10, 0), ProjectCard(p, 10, 1)] by {
      assert FullCards(p, 0, 1) == [ProjectCard(p, 10, 0)];
    }
    assert FullCards(p, 1, 2) == [ProjectCard(p, 10, 1)];
  }

  // ---------------------------------------------------------------------------
  // Counting the cards of one activity in the whole result

  function CountCards(cards: seq<ActivityCard>, t: ActivityType, ref: ActivityRef): (r: nat)
  {
    if cards == [] then 0
    else CountCards(cards[..|cards| - 1], t, ref)
         + (if cards[|cards| - 1].activityType == t && cards[|cards| - 1].id == ref then 1 else 0)
  }

  lemma {:induction false} CountCardsAppend(a: seq<ActivityCard>, b: seq<ActivityCard>, t: ActivityType, ref: ActivityRef)
    ensures CountCards(a + b, t, ref) == CountCards(a, t, ref) + CountCards(b, t, ref)
    decreases |b|
  {
    if b == [] {
      assert a + b == a;
    } else {
      assert (a + b)[..|a + b| - 1] == a + b[..|b| - 1];
      CountCardsAppend(a, b[..|b| - 1], t, ref);
    }
  }

  /** Every card of the list has the given type and id. */
  lemma {:induction false} CountCardsAll(cards: seq<ActivityCard>, t: ActivityType, ref: ActivityRef)
    requires forall k :: 0 <= k < |cards| ==> cards[k].activityType == t && cards[k].id == ref
    ensures CountCards(cards, t, ref) == |cards|
    decreases |cards|
  {
    if cards != [] {
      CountCardsAll(cards[..|cards| - 1], t, ref);
    }
  }

  /** No card of the list has the given type and id. */
  lemma {:induction false} CountCardsNone(cards: seq<ActivityCard>, t: ActivityType, ref: ActivityRef)
    requires forall k :: 0 <= k < |cards| ==> cards[k].activityType != t || cards[k].id != ref
    ensures CountCards(cards, t, ref) == 0
    decreases |cards|
  {
    if cards != [] {
      CountCardsNone(cards[..|cards| - 1], t, ref);
    }
  }

  /** A list of cards all of one type, each lasting between 0.1 and 1 hour. */
  predicate CardsOfType(cards: seq<ActivityCard>, t: ActivityType)
  {
    forall k :: 0 <= k < |cards| ==> cards[k].activityType == t && 1 <= cards[k].duration <= 10
  }

  lemma ProjectCardsIdentity(p: Project, hours: int, placed: nat)
    ensures CardsOfType(ProjectCards(p, hours, placed), ProjectActivity)
    ensures forall k :: 0 <= k < |ProjectCards(p, hours, placed)| ==> ProjectCards(p, hours, placed)[k].id == p.id
  {
    FullCardsShape(p, placed, FullHours(hours));
  }

  /**
   * The project section holds, for a project id, exactly the cards of the one
   * project with that id, if that project occurs (once) in the list.
   */
  lemma {:induction false} ProjectSectionCount(ps: seq<Project>, blocks: seq<TimeBlock>, date: Day, p: Project)
    requires forall q :: q in ps && q.id == p.id ==> q == p
    requires multiset(ps)[p] <= 1
    ensures CountCards(ProjectSection(ps, blocks, date), ProjectActivity, p.id)
         == if p in ps then |ProjectCards(p, ProjectHoursForDate(p, date), PlacedCount(blocks, ProjectActivity, p.id))| else 0
    decreases |ps|
  {
    if ps != [] {
      var q := ps[|ps| - 1];
      var init := ps[..|ps| - 1];
      LastOccurrence(ps, p);
      ProjectSectionCount(init, blocks, date, p);
      var cards := ProjectCards(q, ProjectHoursForDate(q, date), PlacedCount(blocks, ProjectActivity, q.id));
      CountCardsAppend(ProjectSection(init, blocks, date), cards, ProjectActivity, p.id);
      ProjectCardsIdentity(q, ProjectHoursForDate(q, date), PlacedCount(blocks, ProjectActivity, q.id));
      if q.id == p.id {
        CountCardsAll(cards, ProjectActivity, p.id);
      } else {
        CountCardsNone(cards, ProjectActivity, p.id);
      }
    }
  }

  lemma {:induction false} RoutineSectionTypes(rs: seq<Routine>, blocks: seq<TimeBlock>)
    ensures CardsOfType(RoutineSection(rs, blocks), RoutineActivity)
    decreases |rs|
  {
    if rs != [] {
      RoutineSectionTypes(rs[..|rs| - 1], blocks);
    }
  }

  lemma {:induction false} TaskSectionTypes(ts: seq<Task>, blocks: seq<TimeBlock>)
    ensures CardsOfType(TaskSection(ts, blocks), TaskActivity)
    decreases |ts|
  {
    if ts != [] {
      TaskSectionTypes(ts[..|ts| - 1], blocks);
    }
  }

  lemma {:induction false} ProjectSectionTypes(ps: seq<Project>, blocks: seq<TimeBlock>, date: Day)
    ensures CardsOfType(ProjectSection(ps, blocks, date), ProjectActivity)
    decreases |ps|
  {
    if ps != [] {
      var q := ps[|ps| - 1];
      ProjectSectionTypes(ps[..|ps| - 1], blocks, date);
      ProjectCardsIdentity(q, ProjectHoursForDate(q, date), PlacedCount(blocks, ProjectActivity, q.id));
    }
  }

  /**
   * The resolver's output lists the project cards, then the routine cards,
   * then the cards of tasks.
   */
  lemma AvailableCardsLayout(blocks: seq<TimeBlock>, c: Catalog, date: Day)
    ensures var cards := AvailableCards(blocks, c, date);
            var np := |ProjectSection(ProjectsForDate(c.projects, date), blocks, date)|;
            var nr := |RoutineSection(CustomRoutinesForDay(c.customRoutines, date), blocks)|;
            && CardsOfType(cards[..np], ProjectActivity)
            && CardsOfType(cards[np..np + nr], RoutineActivity)
            && CardsOfType(cards[np + nr..], TaskActivity)
  {
    var ps := ProjectSection(ProjectsForDate(c.projects, date), blocks, date);
    var rs := RoutineSection(CustomRoutinesForDay(c.customRoutines, date), blocks);
    var ts := TaskSection(TasksForDate(c, date), blocks);
    ProjectSectionTypes(ProjectsForDate(c.projects, date), blocks, date);
    RoutineSectionTypes(CustomRoutinesForDay(c.customRoutines, date), blocks);
    TaskSectionTypes(TasksForDate(c, date), blocks);
    var cards := ps + rs + ts;
    assert cards[..|ps|] == ps;
    assert cards[|ps|..|ps| + |rs|] == rs;
    assert cards[|ps| + |rs|..] == ts;
  }

  lemma {:induction false} FilterKeepsOccurrences(projects: seq<Project>, date: Day, p: Project)
    requires ScheduledOn(p, date)
    ensures multiset(ProjectsForDate(projects, date))[p] == multiset(projects)[p]
    decreases |projects|
  {
    if projects != [] {
      FilterKeepsOccurrences(projects[1..], date, p);
      assert projects == [projects[0]] + projects[1..];
      assert multiset(projects) == multiset{projects[0]} + multiset(projects[1..]);
    }
  }

  /** Only projects the date schedules yield cards: the others have none. */
  lemma {:induction false} FilterDropsUnscheduled(projects: seq<Project>, date: Day, p: Project)
    requires !ScheduledOn(p, date)
    ensures multiset(ProjectsForDate(projects, date))[p] == 0
  {
    ProjectsForDateMembers(projects, date);
    assert p !in ProjectsForDate(projects, date);
  }

  /**
   * For the only project of the catalog with its id, the resolver offers
   * max(0, total - placed) cards if the date schedules it, and none otherwise.
   */
  lemma ProjectCardCount(blocks: seq<TimeBlock>, c: Catalog, date: Day, p: Project)
    requires multiset(c.projects)[p] == 1
    requires forall q :: q in c.projects && q.id == p.id ==> q == p
    ensures var hours := ProjectHoursForDate(p, date);
            var placed := PlacedCount(blocks, ProjectActivity, p.id);
            CountCards(AvailableCards(blocks, c, date), ProjectActivity, p.id)
            == if ScheduledOn(p, date) && placed < TotalFragments(hours) then TotalFragments(hours) - placed else 0
  {
    var ps := ProjectsForDate(c.projects, date);
    var rs := CustomRoutinesForDay(c.customRoutines, date);
    var ts := TasksForDate(c, date);
    ProjectsForDateMembers(c.projects, date);
    if ScheduledOn(p, date) {
      FilterKeepsOccurrences(c.projects, date, p);
      assert p in ps;
    } else {
      FilterDropsUnscheduled(c.projects, date, p);
      assert p !in ps;
    }
    ProjectSectionCount(ps, blocks, date, p);
    ProjectCardsShape(p, ProjectHoursForDate(p, date), PlacedCount(blocks, ProjectActivity, p.id));
    RoutineSectionTypes(rs, blocks);
    TaskSectionTypes(ts, blocks);
    CountCardsNone(RoutineSection(rs, blocks), ProjectActivity, p.id);
    CountCardsNone(TaskSection(ts, blocks), ProjectActivity, p.id);
    CountCardsAppend(ProjectSection(ps, blocks, date), RoutineSection(rs, blocks), ProjectActivity, p.id);
    CountCardsAppend(ProjectSection(ps, blocks, date) + RoutineSection(rs, blocks), TaskSection(ts, blocks), ProjectActivity, p.id);
  }
  lemma {:induction false} RoutineFilterKeepsOccurrences(routines: seq<Routine>, date: Day, r: Routine)
    ensures multiset(CustomRoutinesForDay(routines, date))[r]
         == if Weekday(date) in r.days then multiset(routines)[r] else 0
    decreases |routines|
  {
    if routines != [] {
      RoutineFilterKeepsOccurrences(routines[1..], date, r);
      assert routines == [routines[0]] + routines[1..];
      assert multiset(routines) == multiset{routines[0]} + multiset(routines[1..]);
    }
  }

  /** Splitting off the last element of a sequence in which x occurs at most once. */
  lemma LastOccurrence<T>(s: seq<T>, x: T)
    requires s != [] && multiset(s)[x] <= 1
    ensures var init := s[..|s| - 1];
            && (x in s <==> x in init || x == s[|s| - 1])
            && multiset(init)[x] <= 1
            && (s[|s| - 1] == x ==> x !in init)
            && (forall y :: y in init ==> y in s)
  {
    var init := s[..|s| - 1];
    assert s == init + [s[|s| - 1]];
    assert multiset(s) == multiset(init) + multiset{s[|s| - 1]};
  }

  /** The routine section holds one card for the routine with the id, if it occurs and is unplaced. */
  lemma {:induction false} RoutineSectionCount(rs: seq<Routine>, blocks: seq<TimeBlock>, r: Routine)
    requires forall x :: x in rs && x.id == r.id ==> x == r
    requires multiset(rs)[r] <= 1
    ensures CountCards(RoutineSection(rs, blocks), RoutineActivity, r.id)
         == if r in rs && !IsPlaced(blocks, RoutineActivity, r.id) then 1 else 0
    decreases |rs|
  {
    if rs != [] {
      var x := rs[|rs| - 1];
      var init := rs[..|rs| - 1];
      LastOccurrence(rs, r);
      RoutineSectionCount(init, blocks, r);
      var last := if !IsPlaced(blocks, RoutineActivity, x.id) then [RoutineCard(x)] else [];
      CountCardsAppend(RoutineSection(init, blocks), last, RoutineActivity, r.id);
      if x.id == r.id {
        CountCardsAll(last, RoutineActivity, r.id);
      } else {
        CountCardsNone(last, RoutineActivity, r.id);
      }
    }
  }

  /**
   * For the only routine of the catalog with its id, the resolver offers
   * exactly one card if the routine runs on the date's weekday and has no
   * routine block on the date, and none otherwise.
   */
  lemma RoutineCardCount(blocks: seq<TimeBlock>, c: Catalog, date: Day, r: Routine)
    requires multiset(c.customRoutines)[r] == 1
    requires forall x :: x in c.customRoutines && x.id == r.id ==> x == r
    ensures CountCards(AvailableCards(blocks, c, date), RoutineActivity, r.id)
         == if Weekday(date) in r.days && !IsPlaced(blocks, RoutineActivity, r.id) then 1 else 0
  {
    var ps := ProjectsForDate(c.projects, date);
    var rs := CustomRoutinesForDay(c.customRoutines, date);
    var ts := TasksForDate(c, date);
    RoutineFilterKeepsOccurrences(c.customRoutines, date, r);
    CustomRoutinesForDayMembers(c.customRoutines, date);
    assert r in rs <==> Weekday(date) in r.days;
    RoutineSectionCount(rs, blocks, r);
    ProjectSectionTypes(ps, blocks, date);
    TaskSectionTypes(ts, blocks);
    CountCardsNone(ProjectSection(ps, blocks, date), RoutineActivity, r.id);
    CountCardsNone(TaskSection(ts, blocks), RoutineActivity, r.id);
    CountCardsAppend(ProjectSection(ps, blocks, date), RoutineSection(rs, blocks), RoutineActivity, r.id);
    CountCardsAppend(ProjectSection(ps, blocks, date) + RoutineSection(rs, blocks), TaskSection(ts, blocks), RoutineActivity, r.id);
  }

  /** The section of tasks holds one card for a given task if it occurs, is open and is unplaced. */
  lemma {:induction false} TaskSectionCount(ts: seq<Task>, blocks: seq<TimeBlock>, t: Task)
    requires forall x :: x in ts && x.id == t.id ==> x == t
    requires multiset(ts)[t] <= 1
    ensures CountCards(TaskSection(ts, blocks), TaskActivity, t.id)
         == if t in ts && !t.completed && !IsPlaced(blocks, TaskActivity, t.id) then 1 else 0
    decreases |ts|
  {
    if ts != [] {
      var x := ts[|ts| - 1];
      var init := ts[..|ts| - 1];
      LastOccurrence(ts, t);
      TaskSectionCount(init, blocks, t);
      var last := if !x.completed && !IsPlaced(blocks, TaskActivity, x.id) then [TaskCard(x)] else [];
      CountCardsAppend(TaskSection(init, blocks), last, TaskActivity, t.id);
      if x.id == t.id {
        CountCardsAll(last, TaskActivity, t.id);
      } else {
        CountCardsNone(last, TaskActivity, t.id);
      }
    }
  }

  /**
   * For a task of the date whose id no other task of the date shares, the
   * resolver offers exactly one card if it is open and has no task
   * block, and none otherwise: a completed task never yields a card.
   */
  lemma TaskCardCount(blocks: seq<TimeBlock>, c: Catalog, date: Day, t: Task)
    requires multiset(TasksForDate(c, date))[t] == 1
    requires forall x :: x in TasksForDate(c, date) && x.id == t.id ==> x == t
    ensures CountCards(AvailableCards(blocks, c, date), TaskActivity, t.id)
         == if !t.completed && !IsPlaced(blocks, TaskActivity, t.id) then 1 else 0
  {
    var ps := ProjectsForDate(c.projects, date);
    var rs := CustomRoutinesForDay(c.customRoutines, date);
    var ts := TasksForDate(c, date);
    assert t in ts;
    TaskSectionCount(ts, blocks, t);
    ProjectSectionTypes(ps, blocks, date);
    RoutineSectionTypes(rs, blocks);
    CountCardsNone(ProjectSection(ps, blocks, date), TaskActivity, t.id);
    CountCardsNone(RoutineSection(rs, blocks), TaskActivity, t.id);
    CountCardsAppend(ProjectSection(ps, blocks, date), RoutineSection(rs, blocks), TaskActivity, t.id);
    CountCardsAppend(ProjectSection(ps, blocks, date) + RoutineSection(rs, blocks), TaskSection(ts, blocks), TaskActivity, t.id);
  }
}
