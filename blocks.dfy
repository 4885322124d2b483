/**
 * Placed time blocks and the list operations the block store performs on the
 * blocks of one date: saveTimeBlock's filter-then-append and deleteTimeBlock's
 * filter, and the no-double-booking invariant a date's blocks keep.
 */
module Blocks {
  import opened Optional
  import opened TimeOfDay
  import opened Interval
  import opened Catalog

  datatype ActivityType = TaskActivity | ProjectActivity | RoutineActivity

  /** Block ids are millisecond time stamps in the source; 0 never names a block. */
  type BlockId = nat

  /**
   * A placed block. The source keeps start and end as "HH:MM" text; the model
   * keeps the minutes that text denotes (TimeOfDay.ToMinutesOfFormatTime).
   */
  datatype TimeBlock = TimeBlock(
    id: BlockId,
    startTime: Minute,
    endTime: Minute,
    activityType: ActivityType,
    activityId: ActivityRef,
    title: string,
    notes: string)

  /** `blocks.filter(b => b.id !== id)`. */
  function WithoutId(blocks: seq<TimeBlock>, id: BlockId): (r: seq<TimeBlock>)
    ensures |r| <= |blocks|
    ensures forall b :: b in r <==> b in blocks && b.id != id
  {
    if blocks == [] then []
    else
      var rest := WithoutId(blocks[1..], id);
      assert forall b :: b in blocks <==> b == blocks[0] || b in blocks[1..];
      if blocks[0].id != id then [blocks[0]] + rest else rest
  }

  /** How many blocks carry the id. */
  function CountId(blocks: seq<TimeBlock>, id: BlockId): (r: nat)
    ensures r <= |blocks|
  {
    if blocks == [] then 0
    else (if blocks[0].id == id then 1 else 0) + CountId(blocks[1..], id)
  }

  lemma {:induction false} CountIdZero(blocks: seq<TimeBlock>, id: BlockId)
    ensures CountId(blocks, id) == 0 <==> forall b :: b in blocks ==> b.id != id
  {
    if blocks != [] {
      CountIdZero(blocks[1..], id);
      assert forall b :: b in blocks <==> b == blocks[0] || b in blocks[1..];
    }
  }

  lemma {:induction false} CountIdAppend(a: seq<TimeBlock>, b: seq<TimeBlock>, id: BlockId)
    ensures CountId(a + b, id) == CountId(a, id) + CountId(b, id)
  {
    if a == [] {
      assert a + b == b;
    } else {
      assert (a + b)[1..] == a[1..] + b;
      CountIdAppend(a[1..], b, id);
    }
  }

  /** deleteTimeBlock's filter removes exactly the blocks with the id and keeps the rest in order. */
  lemma {:induction false} WithoutIdRemovesAll(blocks: seq<TimeBlock>, id: BlockId)
    ensures CountId(WithoutId(blocks, id), id) == 0
    ensures |WithoutId(blocks, id)| == |blocks| - CountId(blocks, id)
  {
    if blocks != [] {
      WithoutIdRemovesAll(blocks[1..], id);
    }
  }

  /** Filtering twice by the same id is filtering once: deleting is idempotent. */
  lemma {:induction false} WithoutIdIdempotent(blocks: seq<TimeBlock>, id: BlockId)
    ensures WithoutId(WithoutId(blocks, id), id) == WithoutId(blocks, id)
  {
    if blocks != [] {
      WithoutIdIdempotent(blocks[1..], id);
    }
  }

  /** Filtering keeps every block whose id differs, in the same order. */
  lemma {:induction false} WithoutIdOtherId(blocks: seq<TimeBlock>, id: BlockId, other: BlockId)
    requires other != id
    ensures CountId(WithoutId(blocks, id), other) == CountId(blocks, other)
  {
    if blocks != [] {
      WithoutIdOtherId(blocks[1..], id, other);
    }
  }

  /** The list saveTimeBlock leaves: earlier blocks with the same id dropped, the block appended. */
  function Upsert(blocks: seq<TimeBlock>, b: TimeBlock): (r: seq<TimeBlock>)
    ensures 0 < |r| <= |blocks| + 1 && r[|r| - 1] == b
  {
    WithoutId(blocks, b.id) + [b]
  }

  /** After saving, exactly one block carries the id, and it is the saved one. */
  lemma UpsertExactlyOne(blocks: seq<TimeBlock>, b: TimeBlock)
    ensures CountId(Upsert(blocks, b), b.id) == 1
    ensures forall x :: x in Upsert(blocks, b) <==> x == b || (x in blocks && x.id != b.id)
    ensures forall x :: x in Upsert(blocks, b) && x.id == b.id ==> x == b
    ensures forall other :: other != b.id ==> CountId(Upsert(blocks, b), other) == CountId(blocks, other)
  {
    WithoutIdRemovesAll(blocks, b.id);
    CountIdAppend(WithoutId(blocks, b.id), [b], b.id);
    forall other | other != b.id
      ensures CountId(Upsert(blocks, b), other) == CountId(blocks, other)
    {
      WithoutIdOtherId(blocks, b.id, other);
      CountIdAppend(WithoutId(blocks, b.id), [b], other);
    }
  }

  predicate UniqueIds(blocks: seq<TimeBlock>)
  {
    forall i, j :: 0 <= i < j < |blocks| ==> blocks[i].id != blocks[j].id
  }

  lemma {:induction false} WithoutIdKeepsUniqueIds(blocks: seq<TimeBlock>, id: BlockId)
    requires UniqueIds(blocks)
    ensures UniqueIds(WithoutId(blocks, id))
  {
    if blocks != [] {
      WithoutIdKeepsUniqueIds(blocks[1..], id);
      var rest := WithoutId(blocks[1..], id);
      if blocks[0].id != id {
        forall j | 0 <= j < |rest| ensures rest[j].id != blocks[0].id {
          assert rest[j] in blocks[1..];
        }
      }
    }
  }

  /** Saving keeps the ids of a date's blocks unique. */
  lemma UpsertKeepsUniqueIds(blocks: seq<TimeBlock>, b: TimeBlock)
    requires UniqueIds(blocks)
    ensures UniqueIds(Upsert(blocks, b))
  {
    WithoutIdKeepsUniqueIds(blocks, b.id);
    var w := WithoutId(blocks, b.id);
    forall i | 0 <= i < |w| ensures w[i].id != b.id {
      assert w[i] in w;
    }
  }

  /** With unique ids, a block of the list is the only one carrying its id. */
  lemma {:induction false} CountIdUnique(blocks: seq<TimeBlock>, b: TimeBlock)
    requires UniqueIds(blocks)
    requires b in blocks
    ensures CountId(blocks, b.id) == 1
  {
    if blocks[0] == b {
      forall x | x in blocks[1..] ensures x.id != b.id {
        var j :| 0 <= j < |blocks[1..]| && blocks[1..][j] == x;
        assert blocks[j + 1] == x;
      }
      CountIdZero(blocks[1..], b.id);
    } else {
      assert b in blocks[1..];
      assert UniqueIds(blocks[1..]) by {
        forall i, j | 0 <= i < j < |blocks[1..]| ensures blocks[1..][i].id != blocks[1..][j].id {
          assert blocks[1..][i] == blocks[i + 1] && blocks[1..][j] == blocks[j + 1];
        }
      }
      CountIdUnique(blocks[1..], b);
      var j :| 0 <= j < |blocks[1..]| && blocks[1..][j] == b;
      assert blocks[j + 1] == b;
    }
  }

  predicate WellFormed(b: TimeBlock) { b.startTime < b.endTime }

  predicate BlockOverlaps(b: TimeBlock, start: Minute, end: Minute)
  {
    Overlaps(start, end, b.startTime, b.endTime)
  }

  predicate EventOverlaps(e: CalendarEvent, start: Minute, end: Minute)
  {
    Overlaps(start, end, e.start, e.end)
  }

  /**
   * checkTimeOverlap: the candidate [start, end) meets a block of the date
   * other than the excluded one, or any calendar event of the date.
   */
  predicate HasConflict(blocks: seq<TimeBlock>, events: seq<CalendarEvent>,
                        start: Minute, end: Minute, exclude: Option<BlockId>)
  {
    || (exists i :: 0 <= i < |blocks| && exclude != Some(blocks[i].id) && BlockOverlaps(blocks[i], start, end))
    || (exists j :: 0 <= j < |events| && EventOverlaps(events[j], start, end))
  }

  /**
   * The date's invariant: every block is a proper interval with its own id,
   * no two blocks share a minute, and no block shares a minute with a
   * calendar event. With unique ids, two positions never hold the same block,
   * so comparing distinct blocks compares every pair of positions
   * (NoConflictsPairwise).
   */
  predicate NoConflicts(blocks: seq<TimeBlock>, events: seq<CalendarEvent>)
  {
    && (forall b :: b in blocks ==> WellFormed(b))
    && UniqueIds(blocks)
    && (forall a, b :: a in blocks && b in blocks && a != b ==> !BlockOverlaps(a, b.startTime, b.endTime))
    && (forall a, e :: a in blocks && e in events ==> !EventOverlaps(e, a.startTime, a.endTime))
  }

  /** The invariant by position: the blocks at any two different positions do not overlap. */
  lemma NoConflictsPairwise(blocks: seq<TimeBlock>, events: seq<CalendarEvent>)
    requires NoConflicts(blocks, events)
    ensures forall i, j :: 0 <= i < |blocks| && 0 <= j < |blocks| && i != j
              ==> !BlockOverlaps(blocks[i], blocks[j].startTime, blocks[j].endTime)
  {
    forall i, j | 0 <= i < |blocks| && 0 <= j < |blocks| && i != j
      ensures !BlockOverlaps(blocks[i], blocks[j].startTime, blocks[j].endTime)
    {
      assert blocks[i].id != blocks[j].id by {
        if i < j {
          assert blocks[i].id != blocks[j].id;
        } else {
          assert blocks[j].id != blocks[i].id;
        }
      }
      assert blocks[i] in blocks && blocks[j] in blocks;
    }
  }

  /** Removing blocks cannot create a conflict. */
  lemma NoConflictsWithoutId(blocks: seq<TimeBlock>, events: seq<CalendarEvent>, id: BlockId)
    requires NoConflicts(blocks, events)
    ensures NoConflicts(WithoutId(blocks, id), events)
  {
    WithoutIdKeepsUniqueIds(blocks, id);
  }

  /**
   * Saving a proper block that the overlap check clears (against every block
   * but itself, and every event) keeps the invariant.
   */
  lemma NoConflictsUpsert(blocks: seq<TimeBlock>, events: seq<CalendarEvent>, b: TimeBlock)
    requires NoConflicts(blocks, events)
    requires WellFormed(b)
    requires !HasConflict(WithoutId(blocks, b.id), events, b.startTime, b.endTime, None)
    ensures NoConflicts(Upsert(blocks, b), events)
  {
    var w := WithoutId(blocks, b.id);
    var r := Upsert(blocks, b);
    UpsertKeepsUniqueIds(blocks, b);
    assert forall x :: x in r <==> x == b || x in w;
    forall x | x in w
      ensures !BlockOverlaps(x, b.startTime, b.endTime) && !BlockOverlaps(b, x.startTime, x.endTime)
    {
      var i :| 0 <= i < |w| && w[i] == x;
      assert !BlockOverlaps(w[i], b.startTime, b.endTime);
      OverlapsSymmetric(b.startTime, b.endTime, x.startTime, x.endTime);
    }
    forall e | e in events ensures !EventOverlaps(e, b.startTime, b.endTime) {
      var j :| 0 <= j < |events| && events[j] == e;
    }
  }
}
