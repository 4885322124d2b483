/**
 * What a drop on the time line does to the blocks of the selected date: the
 * drag payload, the end-minute computation, the 23:00 bound, the overlap check
 * that spares only the block being moved, and the delete-then-save that
 * follows. The Planner's drop handler is proved against these functions.
 */
module Placement {
  import opened Optional
  import opened Text
  import opened TimeOfDay
  import opened Interval
  import opened Catalog
  import opened Blocks
  import opened Resolver

  /**
   * The parsed drag payload. A card payload carries no block id and no notes;
   * a placed block's payload carries its id and notes. The duration is in
   * minutes (the source's hours times 60).
   */
  datatype DragData = DragData(
    activityType: ActivityType,
    activityId: ActivityRef,
    title: string,
    durationMinutes: nat,
    existingBlockId: Option<BlockId>,
    notes: Option<string>)

  /** The payload of an unplaced card: `JSON.stringify(card)`. */
  function CardDragData(card: ActivityCard): (d: DragData)
    requires 0 <= card.duration
    ensures d.existingBlockId.None? && d.notes.None?
    ensures d.durationMinutes * 10 == card.duration * 60
  {
    DragData(card.activityType, card.id, card.title, card.duration * 6, None, None)
  }

  /** The payload of a placed block: its activity, id, notes and length. */
  function BlockDragData(b: TimeBlock): (d: DragData)
    requires b.startTime <= b.endTime
    ensures d.existingBlockId == Some(b.id) && d.notes == Some(b.notes)
    ensures b.startTime + d.durationMinutes == b.endTime
  {
    DragData(b.activityType, b.activityId, b.title, b.endTime - b.startTime, Some(b.id), Some(b.notes))
  }

  /** `data.existingBlockId || null`: a missing id, or id 0, excludes nothing. */
  function ExcludedId(d: DragData): (r: Option<BlockId>)
    ensures r.Some? <==> d.existingBlockId.Some? && d.existingBlockId.value != 0
    ensures r.Some? ==> r == d.existingBlockId
  {
    if d.existingBlockId == Some(0) then None else d.existingBlockId
  }

  /** The block a drop at `start` would save, with the fresh id `now`. */
  function NewBlock(start: Minute, d: DragData, now: BlockId): (b: TimeBlock)
    ensures b.id == now && b.startTime == start && b.endTime == start + d.durationMinutes
    ensures b.activityType == d.activityType && b.activityId == d.activityId && b.title == d.title
    ensures b.notes == d.notes.GetOr("")
  {
    TimeBlock(now, start, start + d.durationMinutes, d.activityType, d.activityId, d.title, d.notes.GetOr(""))
  }

  datatype DropOutcome =
    | Malformed          // the payload did not parse; the error is swallowed
    | OutOfBounds        // the block would end after 23:00
    | Overlap            // the block would meet another block or a calendar event
    | Placed(block: TimeBlock)

  /** How a drop at minute `start` ends. */
  function DropOutcomeOf(blocks: seq<TimeBlock>, events: seq<CalendarEvent>, start: Minute,
                         data: Option<DragData>, now: BlockId): (r: DropOutcome)
    ensures r.Placed? <==> data.Some? && start + data.value.durationMinutes <= DayClose
                           && !HasConflict(blocks, events, start, start + data.value.durationMinutes, ExcludedId(data.value))
    ensures r.Placed? ==> r.block == NewBlock(start, data.value, now)
    ensures r == OutOfBounds <==> data.Some? && start + data.value.durationMinutes > DayClose
  {
    match data
    case None => Malformed
    case Some(d) =>
      var end := start + d.durationMinutes;
      if end > DayClose then OutOfBounds
      else if HasConflict(blocks, events, start, end, ExcludedId(d)) then Overlap
      else Placed(NewBlock(start, d, now))
  }

  /** The blocks left after deleting the moved block, if the payload names one. */
  function WithoutSource(blocks: seq<TimeBlock>, d: DragData): (r: seq<TimeBlock>)
  {
    match ExcludedId(d)
    case Some(id) => WithoutId(blocks, id)
    case None => blocks
  }

  /** The date's blocks after the drop: unchanged unless it is placed. */
  function Drop(blocks: seq<TimeBlock>, events: seq<CalendarEvent>, start: Minute,
                data: Option<DragData>, now: BlockId): (r: seq<TimeBlock>)
  {
    match DropOutcomeOf(blocks, events, start, data, now)
    case Placed(b) => Upsert(WithoutSource(blocks, data.value), b)
    case _ => blocks
  }

  // ---------------------------------------------------------------------------
  // Properties

  /**
   * The 23:00 bound: a drop ending after 23:00 is rejected and leaves the
   * blocks as they were; one ending exactly at 23:00 is placed when nothing
   * conflicts.
   */
  lemma DropBoundary(blocks: seq<TimeBlock>, events: seq<CalendarEvent>, start: Minute, d: DragData, now: BlockId)
    ensures start + d.durationMinutes > DayClose
        ==> DropOutcomeOf(blocks, events, start, Some(d), now) == OutOfBounds
            && Drop(blocks, events, start, Some(d), now) == blocks
    ensures start + d.durationMinutes == DayClose && !HasConflict(blocks, events, start, DayClose, ExcludedId(d))
        ==> DropOutcomeOf(blocks, events, start, Some(d), now).Placed?
  {
  }

  /** A rejected or malformed drop changes nothing. */
  lemma DropRejectedUnchanged(blocks: seq<TimeBlock>, events: seq<CalendarEvent>, start: Minute,
                              data: Option<DragData>, now: BlockId)
    requires !DropOutcomeOf(blocks, events, start, data, now).Placed?
    ensures Drop(blocks, events, start, data, now) == blocks
  {
  }

  /** A placed block ends by 23:00, and its "HH:MM" end text reads back as its end minute. */
  lemma PlacedEndTime(blocks: seq<TimeBlock>, events: seq<CalendarEvent>, slot: nat, data: Option<DragData>, now: BlockId)
    requires slot < SlotCount
    requires DropOutcomeOf(blocks, events, SlotStart(slot), data, now).Placed?
    ensures var b := DropOutcomeOf(blocks, events, SlotStart(slot), data, now).block;
            && FirstSlot <= b.startTime <= b.endTime <= DayClose
            && ToMinutes(FormatTime(b.endTime)) == Int(b.endTime)
            && ToMinutes(SlotTime(slot)) == Int(b.startTime)
  {
    var b := DropOutcomeOf(blocks, events, SlotStart(slot), data, now).block;
    ToMinutesOfFormatTime(b.endTime);
    SlotTimeReadsBack(slot);
  }

  /** Removing the moved block leaves only blocks the overlap check looked at. */
  lemma WithoutSourceChecked(blocks: seq<TimeBlock>, events: seq<CalendarEvent>, start: Minute, end: Minute, d: DragData)
    requires !HasConflict(blocks, events, start, end, ExcludedId(d))
    ensures !HasConflict(WithoutSource(blocks, d), events, start, end, None)
  {
    var w := WithoutSource(blocks, d);
    forall i | 0 <= i < |w| ensures !BlockOverlaps(w[i], start, end) {
      assert w[i] in w;
      var k :| 0 <= k < |blocks| && blocks[k] == w[i];
      assert ExcludedId(d) != Some(blocks[k].id);
    }
  }

  /**
   * The date's invariant survives every drop: if no two blocks overlap and
   * none meets a calendar event before, the same holds after, whether the
   * drop was placed or rejected. A payload of zero length is excluded, as the
   * invariant is about proper intervals.
   */
  lemma DropPreservesNoConflicts(blocks: seq<TimeBlock>, events: seq<CalendarEvent>, start: Minute,
                                 data: Option<DragData>, now: BlockId)
    requires NoConflicts(blocks, events)
    requires data.Some? ==> data.value.durationMinutes > 0
    ensures NoConflicts(Drop(blocks, events, start, data, now), events)
  {
    var outcome := DropOutcomeOf(blocks, events, start, data, now);
    if outcome.Placed? {
      var d := data.value;
      var b := outcome.block;
      var w := WithoutSource(blocks, d);
      if ExcludedId(d).Some? {
        NoConflictsWithoutId(blocks, events, ExcludedId(d).value);
      }
      WithoutSourceChecked(blocks, events, b.startTime, b.endTime, d);
      NoConflictsWithoutId(w, events, b.id);
      forall i | 0 <= i < |WithoutId(w, b.id)| ensures !BlockOverlaps(WithoutId(w, b.id)[i], b.startTime, b.endTime) {
        var x := WithoutId(w, b.id)[i];
        assert x in WithoutId(w, b.id);
        var k :| 0 <= k < |w| && w[k] == x;
      }
      NoConflictsUpsert(w, events, b);
    }
  }

  /**
   * Dropping an unplaced card adds exactly one block, with a fresh id, and
   * keeps every other block.
   */
  lemma CardDropAddsOne(blocks: seq<TimeBlock>, events: seq<CalendarEvent>, start: Minute,
                        card: ActivityCard, now: BlockId)
    requires 0 <= card.duration
    requires forall x :: x in blocks ==> x.id != now
    requires DropOutcomeOf(blocks, events, start, Some(CardDragData(card)), now).Placed?
    ensures var r := Drop(blocks, events, start, Some(CardDragData(card)), now);
            && |r| == |blocks| + 1
            && r[..|blocks|] == blocks
            && r[|blocks|] == NewBlock(start, CardDragData(card), now)
            && r[|blocks|].endTime - r[|blocks|].startTime == card.duration * 6
  {
    assert WithoutId(blocks, now) == blocks by {
      CountIdZero(blocks, now);
      WithoutIdIsIdentity(blocks, now);
    }
  }

  /** Filtering out an id that no block carries changes nothing. */
  lemma {:induction false} WithoutIdIsIdentity(blocks: seq<TimeBlock>, id: BlockId)
    requires forall x :: x in blocks ==> x.id != id
    ensures WithoutId(blocks, id) == blocks
  {
    if blocks != [] {
      assert forall x :: x in blocks[1..] ==> x in blocks;
      WithoutIdIsIdentity(blocks[1..], id);
      assert blocks == [blocks[0]] + blocks[1..];
    }
  }

  /**
   * Moving a placed block: the source block is gone, exactly one block has
   * the fresh id, it keeps the activity, title, notes and length of the
   * source, every other block stays, and the date holds as many blocks as
   * before.
   */
  lemma MoveBlock(blocks: seq<TimeBlock>, events: seq<CalendarEvent>, start: Minute, b: TimeBlock, now: BlockId)
    requires UniqueIds(blocks)
    requires b in blocks && b.id != 0 && WellFormed(b)
    requires forall x :: x in blocks ==> x.id != now
    requires DropOutcomeOf(blocks, events, start, Some(BlockDragData(b)), now).Placed?
    ensures var r := Drop(blocks, events, start, Some(BlockDragData(b)), now);
            && |r| == |blocks|
            && CountId(r, b.id) == 0
            && CountId(r, now) == 1
            && (forall x :: x in r && x.id == now ==>
                  && x.startTime == start
                  && x.endTime - x.startTime == b.endTime - b.startTime
                  && x.activityType == b.activityType && x.activityId == b.activityId
                  && x.title == b.title && x.notes == b.notes)
            && (forall x :: x in blocks && x.id != b.id ==> x in r)
            && (forall x :: x in r ==> x.id == now || (x in blocks && x.id != b.id))
  {
    var d := BlockDragData(b);
    var w := WithoutId(blocks, b.id);
    assert WithoutSource(blocks, d) == w;
    var nb := NewBlock(start, d, now);
    assert forall x :: x in w ==> x.id != now;
    WithoutIdIsIdentity(w, now);
    CountIdUnique(blocks, b);
    WithoutIdRemovesAll(blocks, b.id);
    UpsertExactlyOne(w, nb);
    CountIdAppend(w, [nb], b.id);
  }

  // ---------------------------------------------------------------------------
  // Worked examples: a 09:00-10:00 block, and a 1-hour card

  const NineToTen: TimeBlock := TimeBlock(1, 9 * 60, 10 * 60, TaskActivity, "t1", "Write", "")
  const HourCard: DragData := DragData(ProjectActivity, "p1", "Thesis", 60, None, None)

  /**
   * A 1-hour card dropped at 09:30 meets the 09:00-10:00 block and is
   * rejected; at 10:00 it sits back to back and is placed; at 22:00 (slot 32)
   * it ends exactly at 23:00 and is placed; at 22:30 (slot 33) it would end
   * at 23:30 and is rejected.
   */
  lemma DropExamples(now: BlockId)
    ensures DropOutcomeOf([NineToTen], [], 9 * 60 + 30, Some(HourCard), now) == Overlap
    ensures DropOutcomeOf([NineToTen], [], 10 * 60, Some(HourCard), now).Placed?
    ensures DropOutcomeOf([], [], SlotStart(32), Some(HourCard), now).Placed?
    ensures DropOutcomeOf([], [], SlotStart(33), Some(HourCard), now) == OutOfBounds
  {
    assert [NineToTen][0] == NineToTen;
    assert BlockOverlaps(NineToTen, 9 * 60 + 30, 10 * 60 + 30);
  }
}
