/** Where the items of a record schedule come back, for times of digits and colons, in terms of the
    items themselves. */
module RecordSlots {
  import opened SlotGrid
  import opened SlotGridLaws
  import opened RecordSchedule
  import opened RecordScheduleLaws

  /** An item that stands for a time span and does something. */
  predicate IsPlan(it: Item) { it.action != 0 && it.start != it.end }

  /** How many items are plans. */
  function Plans(items: seq<Item>): nat {
    if items == [] then 0 else (if IsPlan(items[0]) then 1 else 0) + Plans(items[1..])
  }

  predicate ClockTimes(items: seq<Item>) {
    forall j :: 0 <= j < |items| ==> Clock(items[j].start)
  }

  lemma SkippedIff(it: Item)
    requires Clock(it.start)
    ensures Skipped(it) <==> !IsPlan(it)
  {
    SameWithoutLetters(it.start, it.end);
  }

  lemma {:induction false} KeptCount(items: seq<Item>)
    requires ClockTimes(items)
    ensures |Kept(items)| == Plans(items)
  {
    if items == [] {
    } else {
      SkippedIff(items[0]);
      KeptCount(items[1..]);
    }
  }

  /** A plan is kept, behind the plans before it. */
  lemma {:induction false} KeptAt(items: seq<Item>, j: nat)
    requires ClockTimes(items) && j < |items| && IsPlan(items[j])
    ensures var k := Plans(items[..j]); k < |Kept(items)| && Kept(items)[k] == items[j]
  {
    SkippedIff(items[0]);
    if j == 0 {
      assert items[..0] == [];
    } else {
      KeptAt(items[1..], j - 1);
      assert items[..j][1..] == items[1..][..j - 1];
    }
  }

  /** A row that only carries the flag is written. */
  predicate FlagRow(day: Day) {
    day.wholeDay != 0 && |day.items| - Plans(day.items) == 12
  }

  lemma MarkedIff(day: Day)
    requires ClockTimes(day.items)
    ensures Marked(day) <==> FlagRow(day)
  {
    KeptCount(day.items);
  }

  /** Every plan comes back, in the slot whose number is the number of plans before it, but for the
      first one when the flag has a row of its own; the other slots come back empty; and the flag
      comes back when there is a row. */
  lemma ReloadedSlots(day: Day)
    requires ClockTimes(day.items)
    ensures var (n, r) := (Plans(day.items), Reloaded(day));
            && n <= |day.items| == |r.items|
            && (forall j :: 0 <= j < |day.items| && IsPlan(day.items[j]) ==>
                  var k := Plans(day.items[..j]);
                  && k < n
                  && r.items[k] == if k == 0 && FlagRow(day) then Item("00:00:00", "00:00:00", 0) else day.items[j])
            && (forall k :: n <= k < |day.items| ==>
                  r.items[k] == if k == 0 && FlagRow(day) then Item("00:00:00", "00:00:00", 0) else Item("", "", 0))
            && (if n > 0 || FlagRow(day)
                then r.wholeDay == day.wholeDay && r.wholeDayAction == day.wholeDayAction
                else r.wholeDay == 0 && r.wholeDayAction == 0)
  {
    KeptCount(day.items);
    MarkedIff(day);
    forall j | 0 <= j < |day.items| && IsPlan(day.items[j])
      ensures var k := Plans(day.items[..j]);
              && k < Plans(day.items)
              && Reloaded(day).items[k]
                 == if k == 0 && FlagRow(day) then Item("00:00:00", "00:00:00", 0) else day.items[j]
    {
      KeptAt(day.items, j);
      MovedAt(day, Plans(day.items[..j]));
    }
    if HasRows(day) {
      forall k | Plans(day.items) <= k < |day.items|
        ensures Reloaded(day).items[k]
                == if k == 0 && FlagRow(day) then Item("00:00:00", "00:00:00", 0) else Item("", "", 0)
      {
        MovedAt(day, k);
      }
    }
  }

  /** No plan is lost but that one. */
  lemma ReloadedPlans(day: Day)
    requires ClockTimes(day.items)
    ensures Plans(Reloaded(day).items)
            == Plans(day.items) - if FlagRow(day) && Plans(day.items) > 0 then 1 else 0
  {
    KeptCount(day.items);
    MarkedIff(day);
    KeptReloaded(day);
    ReloadedClock(day);
    KeptCount(Reloaded(day).items);
  }

  lemma ReloadedClock(day: Day)
    requires ClockTimes(day.items)
    ensures ClockTimes(Reloaded(day).items)
  {
    KeptClock(day.items);
    if HasRows(day) {
      forall j | 0 <= j < |day.items| ensures Clock(Reloaded(day).items[j].start) { MovedAt(day, j); }
    }
  }

  lemma {:induction false} KeptClock(items: seq<Item>)
    requires ClockTimes(items)
    ensures ClockTimes(Kept(items))
  {
    if items == [] {
    } else {
      KeptClock(items[1..]);
    }
  }

  lemma {:induction false} ItemRowsAt(kept: seq<Item>, chn: int, i: nat, day: Day, t: nat, enable: int, k: nat)
    requires k < |kept|
    ensures ItemRows(kept, chn, i, day, t, enable)[k]
            == Row(chn, i, t + k, Entry(day.wholeDay, day.wholeDayAction, kept[k], enable))
  {
    if k == 0 {
    } else {
      ItemRowsAt(kept[1..], chn, i, day, t + 1, enable, k - 1);
    }
  }

  /** The rows of a day: one for every plan, numbered from 0, and one for the flag. */
  lemma DayRowsAt(chn: int, i: nat, day: Day, enable: int)
    requires ClockTimes(day.items)
    ensures var (n, rows) := (Plans(day.items), RowsOfDay(chn, i, day, enable));
            && |rows| == n + (if FlagRow(day) then 1 else 0)
            && (forall j :: 0 <= j < |day.items| && IsPlan(day.items[j]) ==>
                  var k := Plans(day.items[..j]);
                  k < n && rows[k] == Row(chn, i, k, Entry(day.wholeDay, day.wholeDayAction, day.items[j], enable)))
            && (FlagRow(day) ==>
                  rows[n] == Row(chn, i, 0, Entry(day.wholeDay, day.wholeDayAction,
                                                  Item("00:00:00", "00:00:00", 0), enable)))
  {
    KeptCount(day.items);
    MarkedIff(day);
    forall j | 0 <= j < |day.items| && IsPlan(day.items[j])
      ensures var k := Plans(day.items[..j]);
              && k < Plans(day.items)
              && RowsOfDay(chn, i, day, enable)[k]
                 == Row(chn, i, k, Entry(day.wholeDay, day.wholeDayAction, day.items[j], enable))
    {
      KeptAt(day.items, j);
      ItemRowsAt(Kept(day.items), chn, i, day, 0, enable, Plans(day.items[..j]));
    }
  }

  /** write_record_schedule and read_record_schedule, item by item. */
  method SaveAndLoadItems(table: RecordTable, schedule: Schedule, chn: int, ghost i: nat, ghost j: nat)
    returns (back: Schedule)
    requires schedule.Shaped() && chn >= 0 && i < 8 && j < 48
    requires ClockTimes(schedule.days[i].items)
    modifies table
    ensures fresh(back) && back.Shaped()
    ensures var (day, day') := (schedule.days[i], back.days[i]);
            var k := Plans(day.items[..j]);
            day.items[j].action != 0 && day.items[j].start != day.items[j].end ==>
              && k < 48 && day'.wholeDay == day.wholeDay
              && (day'.items[k] == day.items[j] <==>
                    !(k == 0 && day.wholeDay != 0 && |day.items| - Plans(day.items) == 12))
  {
    back := RecordScheduleLaws.SaveAndLoad(table, schedule, chn);
    ReloadedSlots(schedule.days[i]);
  }
}
