/** write_record_schedule and read_record_schedule of msdb.c. Unlike the other schedules, the items
    of a day are moved together when they are saved, and a flag of the whole day travels with
    them. */
module RecordSchedule {
  import opened Sequences
  import opened SlotGrid

  const MAX_WND_NUM: nat := 4
  const SLOTS: nat := MAX_PLAN_NUM_PER_DAY * MAX_WND_NUM
  const NONE: int := 0

  /** struct schedule_day */
  datatype Day = Day(items: seq<Item>, wholeDay: int, wholeDayAction: int)

  const NO_ITEM: Item := Item("", "", NONE)
  const MARKER: Item := Item("00:00:00", "00:00:00", 0)

  /** What a row of the table record_schedule holds besides its channel, day and plan. */
  datatype Entry = Entry(wholeDay: int, wholeDayAction: int, slot: Item, enable: int)

  type RecordRow = Row<Entry>

  /** The items that are not saved. */
  predicate Skipped(it: Item) {
    it.action == NONE || SameText(it.start, it.end)
  }

  /** The items that are saved, in order. */
  function Kept(items: seq<Item>): (r: seq<Item>)
    ensures |r| <= |items| && forall i :: 0 <= i < |r| ==> !Skipped(r[i])
  {
    if items == [] then []
    else if Skipped(items[0]) then Kept(items[1..])
    else [items[0]] + Kept(items[1..])
  }

  /** When a row that only carries the flag is written: the code compares the number of skipped
      items with the number of plans, not with the number of slots. */
  predicate Marked(day: Day) {
    day.wholeDay != 0 && |day.items| - |Kept(day.items)| == MAX_PLAN_NUM_PER_DAY
  }

  function RowOf(chn: int, i: nat, day: Day, plan: nat, slot: Item, enable: int): RecordRow {
    Row(chn, i, plan, Entry(day.wholeDay, day.wholeDayAction, slot, enable))
  }

  /** The rows of kept items, the first of which gets plan t. */
  function ItemRows(kept: seq<Item>, chn: int, i: nat, day: Day, t: nat, enable: int): (r: seq<RecordRow>)
    ensures |r| == |kept|
  {
    if kept == [] then []
    else [RowOf(chn, i, day, t, kept[0], enable)] + ItemRows(kept[1..], chn, i, day, t + 1, enable)
  }

  function RowsOfDay(chn: int, i: nat, day: Day, enable: int): seq<RecordRow> {
    ItemRows(Kept(day.items), chn, i, day, 0, enable)
    + if Marked(day) then [RowOf(chn, i, day, 0, MARKER, enable)] else []
  }

  /** The rows for the days from day i on. */
  function SavedRows(chn: int, days: seq<Day>, i: nat, enable: int): seq<RecordRow>
    decreases |days| - i
  {
    if i >= |days| then [] else RowsOfDay(chn, i, days[i], enable) + SavedRows(chn, days, i + 1, enable)
  }

  /** What one row does to the days it is loaded into. */
  function Put(days: seq<Day>, row: RecordRow): (r: seq<Day>)
    requires row.day < |days| && row.plan < |days[row.day].items|
    ensures |r| == |days| && forall k :: 0 <= k < |r| ==> |r[k].items| == |days[k].items|
  {
    days[row.day := Day(days[row.day].items[row.plan := row.item.slot], row.item.wholeDay, row.item.wholeDayAction)]
  }

  /** The indices of a row lie in the structure. */
  predicate Within(days: seq<Day>, row: RecordRow) {
    row.day < |days| && row.plan < |days[row.day].items|
  }

  predicate AllWithin(days: seq<Day>, rows: seq<RecordRow>) {
    forall k :: 0 <= k < |rows| ==> Within(days, rows[k])
  }

  function PutAll(days: seq<Day>, rows: seq<RecordRow>): (r: seq<Day>)
    requires AllWithin(days, rows)
    ensures |r| == |days| && forall k :: 0 <= k < |r| ==> |r[k].items| == |days[k].items|
    decreases |rows|
  {
    if rows == [] then days
    else assert Within(days, rows[0]); PutAll(Put(days, rows[0]), rows[1..])
  }

  lemma {:induction false} PutAllConcat(days: seq<Day>, a: seq<RecordRow>, b: seq<RecordRow>)
    requires AllWithin(days, a) && AllWithin(days, b)
    ensures AllWithin(days, a + b) && AllWithin(PutAll(days, a), b)
    ensures PutAll(days, a + b) == PutAll(PutAll(days, a), b)
    decreases |a|
  {
    if a == [] {
      assert a + b == b;
    } else {
      assert Within(days, a[0]);
      PutAllConcat(Put(days, a[0]), a[1..], b);
      assert (a + b)[1..] == a[1..] + b;
    }
  }

  lemma PutAllNext(days: seq<Day>, rows: seq<RecordRow>, k: nat)
    requires k < |rows| && AllWithin(days, rows)
    ensures Within(PutAll(days, rows[..k]), rows[k])
    ensures PutAll(days, rows[..k + 1]) == Put(PutAll(days, rows[..k]), rows[k])
  {
    assert rows[..k + 1] == rows[..k] + [rows[k]];
    assert Within(days, rows[k]);
    PutAllConcat(days, rows[..k], [rows[k]]);
    assert [rows[k]][1..] == [];
  }

  /** struct record_schedule, in the hands of a caller */
  class Schedule {
    var days: seq<Day>
    var enable: int

    predicate Shaped()
      reads this
    {
      |days| == MAX_DAY_NUM && forall i :: 0 <= i < |days| ==> |days[i].items| == SLOTS
    }

    /** A structure that memset has cleared. */
    constructor ()
      ensures Shaped() && enable == 0 && days == Cleared()
    {
      days, enable := Cleared(), 0;
    }
  }

  function Cleared(): (r: seq<Day>)
    ensures |r| == MAX_DAY_NUM && forall i :: 0 <= i < |r| ==> r[i] == ClearedDay(SLOTS)
  {
    seq(MAX_DAY_NUM, _ => ClearedDay(SLOTS))
  }

  function ClearedDay(slots: nat): (d: Day)
    ensures |d.items| == slots
  {
    Day(seq(slots, _ => NO_ITEM), 0, 0)
  }

  class RecordTable {
    var rows: seq<RecordRow>

    constructor ()
      ensures rows == []
    {
      rows := [];
    }

    /** The body of the loop over the days. */
    method SaveDay(chn: int, i: nat, day: Day, enable: int)
      modifies this
      ensures rows == old(rows) + RowsOfDay(chn, i, day, enable)
    {
      var notInsNum, hasWholeDayEnable, t := 0, 0, 0;
      if day.wholeDay != 0 {
        hasWholeDayEnable := 1;
      }
      var j := 0;
      assert day.items[0..] == day.items;
      while j < |day.items|
        invariant j <= |day.items| && notInsNum == j - t
        invariant 0 <= t && t + |Kept(day.items[j..])| == |Kept(day.items)|
        invariant rows + ItemRows(Kept(day.items[j..]), chn, i, day, t, enable)
                  == old(rows) + ItemRows(Kept(day.items), chn, i, day, 0, enable)
      {
        assert day.items[j..][1..] == day.items[j + 1..];
        if day.items[j].action == NONE || SameText(day.items[j].start, day.items[j].end) {
          notInsNum := notInsNum + 1;
          j := j + 1;
          continue;
        }
        ghost var rest := Kept(day.items[j + 1..]);
        assert ([day.items[j]] + rest)[1..] == rest;
        ConcatAssoc(rows, [RowOf(chn, i, day, t, day.items[j], enable)], ItemRows(rest, chn, i, day, t + 1, enable));
        rows := rows + [RowOf(chn, i, day, t, day.items[j], enable)];
        t := t + 1;
        j := j + 1;
      }
      assert day.items[j..] == [];
      assert rows == old(rows) + ItemRows(Kept(day.items), chn, i, day, 0, enable);
      ConcatAssoc(old(rows), ItemRows(Kept(day.items), chn, i, day, 0, enable),
                  [RowOf(chn, i, day, 0, MARKER, enable)]);
      if hasWholeDayEnable == 1 && notInsNum == MAX_PLAN_NUM_PER_DAY {
        rows := rows + [RowOf(chn, i, day, 0, MARKER, enable)];
      }
    }

    /** write_record_schedule */
    method Save(schedule: Schedule, chn: int) returns (r: int)
      modifies this
      ensures chn < 0 ==> r == -1 && rows == old(rows)
      ensures chn >= 0 ==>
                r == 0 && rows == Others(old(rows), chn) + SavedRows(chn, schedule.days, 0, schedule.enable)
    {
      if chn < 0 {
        return -1;
      }
      rows := Others(rows, chn);
      var i := 0;
      while i < |schedule.days|
        invariant i <= |schedule.days|
        invariant rows + SavedRows(chn, schedule.days, i, schedule.enable)
                  == Others(old(rows), chn) + SavedRows(chn, schedule.days, 0, schedule.enable)
      {
        ConcatAssoc(rows, RowsOfDay(chn, i, schedule.days[i], schedule.enable),
                    SavedRows(chn, schedule.days, i + 1, schedule.enable));
        SaveDay(chn, i, schedule.days[i], schedule.enable);
        i := i + 1;
      }
      return 0;
    }

    /** read_record_schedule */
    method Load(schedule: Schedule, chn: int) returns (r: int)
      requires schedule.Shaped()
      requires AllWithin(schedule.days, Own(rows, chn))
      modifies schedule
      ensures var own := Own(rows, chn);
              if chn < 0 || own == [] then r == -1 && unchanged(schedule)
              else r == 0 && schedule.days == PutAll(old(schedule.days), Used(own))
                   && schedule.enable == LastEnable(Used(own))
      ensures schedule.Shaped()
    {
      if chn < 0 {
        return -1;
      }
      var own := Own(rows, chn);
      if |own| == 0 {
        return -1;
      }
      LoadRows(schedule, own, MAX_DAY_NUM * SLOTS);
      return 0;
    }
  }

  /** The rows the loop of read_record_schedule gets to. */
  function Used(own: seq<RecordRow>): (r: seq<RecordRow>)
    ensures r <= own && |r| == if |own| < 385 then |own| else 385
  {
    own[..Min(|own|, MAX_DAY_NUM * SLOTS + 1)]
  }

  function LastEnable(rows: seq<RecordRow>): int
    requires rows != []
  {
    rows[|rows| - 1].item.enable
  }

  /** The loop of read_record_schedule over the rows of the channel. */
  method LoadRows(schedule: Schedule, own: seq<RecordRow>, loopCnt: nat)
    requires own != [] && AllWithin(schedule.days, own)
    modifies schedule
    ensures var n := Min(|own|, loopCnt + 1);
            schedule.days == PutAll(old(schedule.days), own[..n]) && schedule.enable == LastEnable(own[..n])
  {
    ghost var days := schedule.days;
    var k := 0;
    while k <= loopCnt
      invariant k < |own| && k <= loopCnt + 1
      invariant schedule.days == PutAll(days, own[..k])
      invariant k > 0 ==> schedule.enable == own[k - 1].item.enable
    {
      PutAllNext(days, own, k);
      schedule.enable := own[k].item.enable;
      schedule.days := Put(schedule.days, own[k]);
      k := k + 1;
      if k >= |own| {
        break;
      }
    }
    assert k == Min(|own|, loopCnt + 1);
  }
}
