/**
 * The day view's time-block state and the handlers that change or read it:
 * the date-keyed block store, the overlap check, the resolver of unplaced
 * cards and the drop handler. Each handler is proved against the
 * specification functions of Blocks, Resolver and Placement.
 */
module DayView {
  import opened Optional
  import opened Text
  import opened TimeOfDay
  import opened Interval
  import opened Catalog
  import opened Blocks
  import opened Resolver
  import opened Placement

  class Planner {
    /** `timeBlocks`: each date's placed blocks. */
    var timeBlocks: map<Day, seq<TimeBlock>>

    constructor()
      ensures timeBlocks == map[]
    {
      timeBlocks := map[];
    }

    /** getTimeBlocksForDate: the date's blocks, or none if the date has no entry. */
    function TimeBlocksForDate(date: Day): (r: seq<TimeBlock>)
      reads this
      ensures date in timeBlocks ==> r == timeBlocks[date]
      ensures date !in timeBlocks ==> r == []
    {
      if date in timeBlocks then timeBlocks[date] else []
    }

    /**
     * saveTimeBlock: the block gets its own id, or `now` if it has none; any
     * earlier block with that id on the date is replaced and the block is
     * appended. Other dates keep their entries.
     */
    method SaveTimeBlock(date: Day, block: TimeBlock, now: BlockId) returns (saved: TimeBlock)
      modifies this
      ensures saved == block.(id := if block.id != 0 then block.id else now)
      ensures timeBlocks == old(timeBlocks)[date := Upsert(old(TimeBlocksForDate(date)), saved)]
      ensures CountId(TimeBlocksForDate(date), saved.id) == 1
      ensures forall x :: x in TimeBlocksForDate(date)
                <==> x == saved || (x in old(TimeBlocksForDate(date)) && x.id != saved.id)
    {
      saved := block.(id := if block.id != 0 then block.id else now);
      var blocks := TimeBlocksForDate(date);
      UpsertExactlyOne(blocks, saved);
      timeBlocks := timeBlocks[date := Upsert(blocks, saved)];
    }

    /**
     * deleteTimeBlock: every block with the id leaves the date, the others
     * stay in order; the date gets an entry even if it had none.
     */
    method DeleteTimeBlock(date: Day, blockId: BlockId)
      modifies this
      ensures timeBlocks == old(timeBlocks)[date := WithoutId(old(TimeBlocksForDate(date)), blockId)]
      ensures CountId(TimeBlocksForDate(date), blockId) == 0
      ensures forall other :: other != blockId
                ==> CountId(TimeBlocksForDate(date), other) == CountId(old(TimeBlocksForDate(date)), other)
    {
      var blocks := TimeBlocksForDate(date);
      WithoutIdRemovesAll(blocks, blockId);
      forall other | other != blockId
        ensures CountId(WithoutId(blocks, blockId), other) == CountId(blocks, other)
      {
        WithoutIdOtherId(blocks, blockId, other);
      }
      timeBlocks := timeBlocks[date := WithoutId(blocks, blockId)];
    }

    /**
     * checkTimeOverlap: whether [start, end) meets a block of the date other
     * than the excluded one, or a calendar event of the date.
     */
    method CheckTimeOverlap(date: Day, start: Minute, end: Minute, exclude: Option<BlockId>,
                            events: seq<CalendarEvent>) returns (overlap: bool)
      ensures overlap == HasConflict(TimeBlocksForDate(date), events, start, end, exclude)
    {
      var blocks := TimeBlocksForDate(date);
      for i := 0 to |blocks|
        invariant forall k :: 0 <= k < i ==> exclude == Some(blocks[k].id) || !BlockOverlaps(blocks[k], start, end)
      {
        var block := blocks[i];
        if exclude == Some(block.id) {
          continue;
        }
        var blockStart, blockEnd := block.startTime, block.endTime;
        if || (start >= blockStart && start < blockEnd)
           || (end > blockStart && end <= blockEnd)
           || (start <= blockStart && end >= blockEnd)
        {
          return true;
        }
      }
      for j := 0 to |events|
        invariant forall k :: 0 <= k < j ==> !EventOverlaps(events[k], start, end)
      {
        var eventStart, eventEnd := events[j].start, events[j].end;
        if || (start >= eventStart && start < eventEnd)
           || (end > eventStart && end <= eventEnd)
           || (start <= eventStart && end >= eventEnd)
        {
          return true;
        }
      }
      return false;
    }

    /**
     * getAvailableActivityCards: the cards of the date's projects, routines
     * and open tasks that are not yet placed. It changes no state.
     */
    method GetAvailableActivityCards(date: Day, catalog: Catalog) returns (cards: seq<ActivityCard>)
      ensures cards == AvailableCards(TimeBlocksForDate(date), catalog, date)
    {
      var blocks := TimeBlocksForDate(date);
      var projectCards := CollectProjectCards(ProjectsForDate(catalog.projects, date), blocks, date);
      var routineCards := CollectRoutineCards(CustomRoutinesForDay(catalog.customRoutines, date), blocks);
      var taskCards := CollectTaskCards(TasksForDate(catalog, date), blocks);
      cards := projectCards + routineCards + taskCards;
    }
    /**
     * handleTimeBlockDrop on drop slot `slot` of the date, with the parsed
     * payload (None if it did not parse) and `now` as the new block's id. It
     * takes the slot's start minute, computes the end, rejects an end after
     * 23:00, rejects an overlap, deletes the moved block and saves the new
     * one. A rejected drop changes nothing, and no drop of positive length
     * breaks the date's freedom from conflicts.
     */
    method HandleTimeBlockDrop(date: Day, slot: nat, data: Option<DragData>, events: seq<CalendarEvent>,
                               now: BlockId) returns (outcome: DropOutcome)
      requires slot < SlotCount
      modifies this
      ensures outcome == DropOutcomeOf(old(TimeBlocksForDate(date)), events, SlotStart(slot), data, now)
      ensures outcome.Placed?
          ==> timeBlocks == old(timeBlocks)[date := Drop(old(TimeBlocksForDate(date)), events, SlotStart(slot), data, now)]
      ensures !outcome.Placed? ==> timeBlocks == old(timeBlocks)
      ensures NoConflicts(old(TimeBlocksForDate(date)), events) && (data.Some? ==> data.value.durationMinutes > 0)
          ==> NoConflicts(TimeBlocksForDate(date), events)
    {
      ghost var before := TimeBlocksForDate(date);
      if data.None? {
        return Malformed;
      }
      var d := data.value;
      // The slot's "HH:MM" label reads back as SlotStart(slot) (TimeOfDay.SlotTimeReadsBack),
      // and the "HH:MM" text written for the end reads back as the end minute
      // (TimeOfDay.ToMinutesOfFormatTime), so the check and the saved block see these minutes.
      var startMinutes := SlotStart(slot);
      var endMinutes := startMinutes + d.durationMinutes;
      if endMinutes > DayClose {
        return OutOfBounds;
      }
      var excludeId := ExcludedId(d);
      var overlap := CheckTimeOverlap(date, startMinutes, endMinutes, excludeId, events);
      if overlap {
        return Overlap;
      }
      ghost var placed := NewBlock(SlotStart(slot), d, now);
      assert DropOutcomeOf(before, events, SlotStart(slot), data, now) == Placed(placed);
      if excludeId.Some? {
        DeleteTimeBlock(date, excludeId.value);
      }
      assert TimeBlocksForDate(date) == WithoutSource(before, d);
      var block := TimeBlock(now, startMinutes, endMinutes,
                             d.activityType, d.activityId, d.title, d.notes.GetOr(""));
      var saved := SaveTimeBlock(date, block, now);
      assert saved == placed;
      outcome := Placed(saved);
      assert TimeBlocksForDate(date) == Drop(before, events, SlotStart(slot), data, now);
      if NoConflicts(before, events) && d.durationMinutes > 0 {
        DropPreservesNoConflicts(before, events, SlotStart(slot), data, now);
      }
    }
  }

  /**
   * The project part of getAvailableActivityCards: for each project, one
   * card per whole hour from the placed count on, then the remainder card
   * unless every fragment is placed.
   */
  method CollectProjectCards(projectsForDay: seq<Project>, blocks: seq<TimeBlock>, date: Day)
    returns (cards: seq<ActivityCard>)
    ensures cards == ProjectSection(projectsForDay, blocks, date)
  {
    cards := [];
    for n := 0 to |projectsForDay|
      invariant cards == ProjectSection(projectsForDay[..n], blocks, date)
    {
      var project := projectsForDay[n];
      var projectCards := CollectOneProject(project, ProjectHoursForDate(project, date),
                                            PlacedCount(blocks, ProjectActivity, project.id));
      cards := cards + projectCards;
      ProjectSectionStep(projectsForDay, n, blocks, date);
    }
    assert projectsForDay[..|projectsForDay|] == projectsForDay;
  }

  /** The cards of one project with the given hours (in tenths) and placed count. */
  method CollectOneProject(project: Project, hours: int, placedCount: nat) returns (cards: seq<ActivityCard>)
    ensures cards == ProjectCards(project, hours, placedCount)
  {
    var fullHours := hours / 10;
    var remainder := hours % 10;
    var totalCards := fullHours + (if remainder > 0 then 1 else 0);
    cards := [];
    var i := placedCount;
    while i < fullHours
      invariant placedCount <= i && (i <= fullHours || i == placedCount)
      invariant cards == FullCards(project, placedCount, i)
    {
      cards := cards + [ActivityCard(ProjectActivity, project.id, project.title, 10, Some(i))];
      assert FullCards(project, placedCount, i + 1) == FullCards(project, placedCount, i) + [ProjectCard(project, 10, i)];
      i := i + 1;
    }
    assert FullCards(project, placedCount, i) == FullCards(project, placedCount, fullHours);
    if remainder > 0 && placedCount < totalCards {
      cards := cards + [ActivityCard(ProjectActivity, project.id, project.title, remainder, Some(fullHours))];
    }
  }

  /** The routine part: one card per routine of the day that has no routine block. */
  method CollectRoutineCards(routines: seq<Routine>, blocks: seq<TimeBlock>) returns (cards: seq<ActivityCard>)
    ensures cards == RoutineSection(routines, blocks)
  {
    cards := [];
    for n := 0 to |routines|
      invariant cards == RoutineSection(routines[..n], blocks)
    {
      var routine := routines[n];
      ghost var before := cards;
      var alreadyPlaced := IsPlaced(blocks, RoutineActivity, routine.id);
      if !alreadyPlaced {
        cards := cards + [ActivityCard(RoutineActivity, routine.id, routine.icon + " " + routine.name, 10, None)];
      }
      assert cards == before + (if !IsPlaced(blocks, RoutineActivity, routine.id) then [RoutineCard(routine)] else []);
      RoutineSectionStep(routines, n, blocks);
    }
    assert routines[..|routines|] == routines;
  }

  /** The part for tasks: one half-hour card per open task of the date that has no task block. */
  method CollectTaskCards(tasks: seq<Task>, blocks: seq<TimeBlock>) returns (cards: seq<ActivityCard>)
    ensures cards == TaskSection(tasks, blocks)
  {
    cards := [];
    for n := 0 to |tasks|
      invariant cards == TaskSection(tasks[..n], blocks)
    {
      var task := tasks[n];
      ghost var before := cards;
      if !task.completed {
        var alreadyPlaced := IsPlaced(blocks, TaskActivity, task.id);
        if !alreadyPlaced {
          cards := cards + [ActivityCard(TaskActivity, task.id, task.text, 5, None)];
        }
      }
      assert cards == before + (if !task.completed && !IsPlaced(blocks, TaskActivity, task.id) then [TaskCard(task)] else []);
      TaskSectionStep(tasks, n, blocks);
    }
    assert tasks[..|tasks|] == tasks;
  }
}
