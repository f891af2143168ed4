/** Saving a record schedule and loading it into a cleared structure: what survives, exactly. */
module RecordScheduleLaws {
  import opened Sequences
  import opened SlotGrid
  import opened SlotGridLaws
  import opened RecordSchedule

  // ----- what the rows of a day do to a cleared day --------------------------------------

  predicate HasRows(day: Day) { Kept(day.items) != [] || Marked(day) }

  /** A marker is written over the first item. */
  predicate LosesItem(day: Day) { Marked(day) && Kept(day.items) != [] }

  /** The day that comes back. */
  function Reloaded(day: Day): (r: Day)
    ensures |r.items| == |day.items|
  {
    if !HasRows(day) then ClearedDay(|day.items|)
    else Day(Moved(day), day.wholeDay, day.wholeDayAction)
  }

  /** The kept items at the front, and the marker over the first of them when there is one. */
  function Moved(day: Day): (r: seq<Item>)
    ensures |r| == |day.items|
  {
    var kept := Kept(day.items);
    seq(|day.items|, j requires 0 <= j < |day.items| =>
          if j == 0 && Marked(day) then MARKER else if j < |kept| then kept[j] else NO_ITEM)
  }

  /** Kept items loaded from plan t on. */
  function Placed(items: seq<Item>, kept: seq<Item>, t: nat): (r: seq<Item>)
    ensures |r| == |items|
  {
    seq(|items|, j requires 0 <= j < |items| => if t <= j < t + |kept| then kept[j - t] else items[j])
  }

  lemma PutFirst(days: seq<Day>, row: RecordRow, rest: seq<RecordRow>)
    requires Within(days, row) && AllWithin(Put(days, row), rest)
    ensures AllWithin(days, [row] + rest) && PutAll(days, [row] + rest) == PutAll(Put(days, row), rest)
  {
    var rows := [row] + rest;
    assert rows[1..] == rest;
    forall k | 0 <= k < |rows| ensures Within(days, rows[k]) {
      if k > 0 { assert Within(Put(days, row), rest[k - 1]); }
    }
  }

  lemma {:induction false} PutItems(days: seq<Day>, kept: seq<Item>, chn: int, i: nat, day: Day, t: nat, enable: int)
    requires i < |days| && t + |kept| <= |days[i].items|
    ensures var rows := ItemRows(kept, chn, i, day, t, enable);
            && AllWithin(days, rows)
            && PutAll(days, rows) == if kept == [] then days else
                 days[i := Day(Placed(days[i].items, kept, t), day.wholeDay, day.wholeDayAction)]
    decreases |kept|
  {
    if kept == [] {
    } else {
      var row := RowOf(chn, i, day, t, kept[0], enable);
      var rest := ItemRows(kept[1..], chn, i, day, t + 1, enable);
      PutItems(Put(days, row), kept[1..], chn, i, day, t + 1, enable);
      PutFirst(days, row, rest);
      PlacedNext(days[i].items, kept, t);
    }
  }

  lemma PlacedNext(items: seq<Item>, kept: seq<Item>, t: nat)
    requires kept != [] && t + |kept| <= |items|
    ensures Placed(items, kept, t) == Placed(items[t := kept[0]], kept[1..], t + 1)
    ensures |kept| == 1 ==> Placed(items, kept, t) == items[t := kept[0]]
  {
  }

  lemma PlacedNone(items: seq<Item>, t: nat)
    ensures Placed(items, [], t) == items
  {
  }

  lemma PutMarker(days: seq<Day>, chn: int, i: nat, day: Day, enable: int)
    requires i < |days| && Marked(day) && |days[i].items| == |day.items|
    ensures var mark := [RowOf(chn, i, day, 0, MARKER, enable)];
            && AllWithin(days, mark)
            && PutAll(days, mark) == days[i := Day(days[i].items[0 := MARKER], day.wholeDay, day.wholeDayAction)]
  {
    var mark := [RowOf(chn, i, day, 0, MARKER, enable)];
    assert Within(days, mark[0]) && mark[1..] == [];
  }

  lemma MovedIs(day: Day)
    ensures var p := Placed(ClearedDay(|day.items|).items, Kept(day.items), 0);
            Moved(day) == if Marked(day) then p[0 := MARKER] else p
  {
  }

  lemma PutDay(days: seq<Day>, chn: int, i: nat, day: Day, enable: int)
    requires i < |days| && days[i] == ClearedDay(|day.items|)
    ensures var rows := RowsOfDay(chn, i, day, enable);
            AllWithin(days, rows) && PutAll(days, rows) == days[i := Reloaded(day)]
  {
    if Marked(day) {
      PutMarkedDay(days, chn, i, day, enable);
    } else {
      var rows := ItemRows(Kept(day.items), chn, i, day, 0, enable);
      PutItems(days, Kept(day.items), chn, i, day, 0, enable);
      MovedIs(day);
      assert rows + [] == rows;
      assert days[i := days[i]] == days;
    }
  }

  lemma PutMarkedDay(days: seq<Day>, chn: int, i: nat, day: Day, enable: int)
    requires i < |days| && days[i] == ClearedDay(|day.items|) && Marked(day)
    ensures var rows := RowsOfDay(chn, i, day, enable);
            AllWithin(days, rows) && PutAll(days, rows) == days[i := Reloaded(day)]
  {
    var kept := Kept(day.items);
    var rows := ItemRows(kept, chn, i, day, 0, enable);
    PutItems(days, kept, chn, i, day, 0, enable);
    MovedIs(day);
    var mid := PutAll(days, rows);
    PutMarker(days, chn, i, day, enable);
    PutMarker(mid, chn, i, day, enable);
    PutAllConcat(days, rows, [RowOf(chn, i, day, 0, MARKER, enable)]);
    if kept == [] { PlacedNone(days[i].items, 0); }
    assert mid[i].items == Placed(days[i].items, kept, 0);
  }

  // ----- the whole structure -----------------------------------------------------------

  /** The first i days reloaded, the others cleared. */
  function UpTo(days: seq<Day>, i: nat): (r: seq<Day>)
    ensures |r| == |days|
  {
    seq(|days|, k requires 0 <= k < |days| =>
          if k < i then Reloaded(days[k]) else ClearedDay(|days[k].items|))
  }

  lemma {:induction false} PutDays(days: seq<Day>, chn: int, i: nat, enable: int)
    requires i <= |days|
    ensures var rows := SavedRows(chn, days, i, enable);
            AllWithin(UpTo(days, i), rows) && PutAll(UpTo(days, i), rows) == UpTo(days, |days|)
    decreases |days| - i
  {
    if i < |days| {
      var start, rest := UpTo(days, i), SavedRows(chn, days, i + 1, enable);
      PutDay(start, chn, i, days[i], enable);
      assert start[i := Reloaded(days[i])] == UpTo(days, i + 1);
      PutDays(days, chn, i + 1, enable);
      assert forall k :: 0 <= k < |rest| ==> Within(UpTo(days, i + 1), rest[k]) ==> Within(start, rest[k]);
      PutAllConcat(start, RowsOfDay(chn, i, days[i], enable), rest);
    } else {
      assert UpTo(days, i) == UpTo(days, |days|);
    }
  }

  lemma {:induction false} ItemRowsMine(kept: seq<Item>, chn: int, i: nat, day: Day, t: nat, enable: int)
    ensures forall r :: r in ItemRows(kept, chn, i, day, t, enable) ==> r.owner == chn && r.item.enable == enable
  {
    if kept == [] {
    } else {
      ItemRowsMine(kept[1..], chn, i, day, t + 1, enable);
    }
  }

  lemma {:induction false} SavedRowsMine(days: seq<Day>, chn: int, i: nat, enable: int)
    requires i <= |days|
    ensures forall r :: r in SavedRows(chn, days, i, enable) ==> r.owner == chn && r.item.enable == enable
    decreases |days| - i
  {
    if i >= |days| {
    } else {
      ItemRowsMine(Kept(days[i].items), chn, i, days[i], 0, enable);
      SavedRowsMine(days, chn, i + 1, enable);
    }
  }

  lemma RowsOfDayFit(chn: int, i: nat, day: Day, enable: int)
    ensures |RowsOfDay(chn, i, day, enable)| <= |day.items|
  {
  }

  lemma {:induction false} SavedRowsFit(days: seq<Day>, chn: int, i: nat, enable: int, slots: nat)
    requires i <= |days| && forall k :: 0 <= k < |days| ==> |days[k].items| == slots
    ensures |SavedRows(chn, days, i, enable)| <= (|days| - i) * slots
    decreases |days| - i
  {
    if i >= |days| {
    } else {
      RowsOfDayFit(chn, i, days[i], enable);
      SavedRowsFit(days, chn, i + 1, enable, slots);
      OneMore(|days| - i, slots);
    }
  }

  lemma OneMore(n: nat, slots: nat)
    requires n > 0
    ensures n * slots == (n - 1) * slots + slots
  {
  }

  /** The rows of a save, loaded into a cleared structure, give the days reloaded one by one, and
      the bound on the loop drops none of them. */
  lemma LoadSaved(days: seq<Day>, chn: int, enable: int)
    requires |days| == 8 && forall k :: 0 <= k < |days| ==> |days[k].items| == 48
    ensures var mine := SavedRows(chn, days, 0, enable);
            && Used(mine) == mine
            && AllWithin(Cleared(), mine) && PutAll(Cleared(), mine) == UpTo(days, MAX_DAY_NUM)
            && (mine == [] ==> Cleared() == UpTo(days, MAX_DAY_NUM))
            && (mine != [] ==> LastEnable(mine) == enable)
  {
    var mine := SavedRows(chn, days, 0, enable);
    SavedRowsMine(days, chn, 0, enable);
    SavedRowsFit(days, chn, 0, enable, SLOTS);
    PutDays(days, chn, 0, enable);
    assert Cleared() == UpTo(days, 0);
    if mine != [] { assert mine[|mine| - 1] in mine; }
  }

  /** After a save, over whatever was in the table, the channel's rows are those of the save, and
      other channels keep theirs. */
  lemma SavedRowsFound(rows: seq<RecordRow>, days: seq<Day>, chn: int, enable: int)
    ensures var (mine, after) := (SavedRows(chn, days, 0, enable), Others(rows, chn) + SavedRows(chn, days, 0, enable));
            && Own(after, chn) == mine && Others(after, chn) == Others(rows, chn)
            && forall other :: other != chn ==> Own(after, other) == Own(rows, other)
  {
    var mine := SavedRows(chn, days, 0, enable);
    SavedRowsMine(days, chn, 0, enable);
    OthersThenOwn(rows, mine, chn);
    forall other | other != chn ensures Own(Others(rows, chn) + mine, other) == Own(rows, other) {
      OtherOwners(rows, mine, chn, other);
    }
  }

  /** read_record_schedule into a cleared structure, when the channel's rows are those of a save. */
  method LoadCleared(table: RecordTable, chn: int, ghost days: seq<Day>, ghost enable: int) returns (back: Schedule)
    requires |days| == MAX_DAY_NUM && forall k :: 0 <= k < |days| ==> |days[k].items| == SLOTS
    requires chn >= 0 && Own(table.rows, chn) == SavedRows(chn, days, 0, enable)
    ensures fresh(back) && back.days == UpTo(days, MAX_DAY_NUM)
    ensures back.enable == if SavedRows(chn, days, 0, enable) == [] then 0 else enable
  {
    back := new Schedule();
    LoadSaved(days, chn, enable);
    var _ := table.Load(back, chn);
  }

  /** write_record_schedule, and then read_record_schedule. */
  method SaveAndLoad(table: RecordTable, schedule: Schedule, chn: int) returns (back: Schedule)
    requires schedule.Shaped() && chn >= 0
    modifies table
    ensures fresh(back) && back.days == UpTo(schedule.days, MAX_DAY_NUM)
    ensures back.enable == if SavedRows(chn, schedule.days, 0, schedule.enable) == [] then 0 else schedule.enable
    ensures table.rows == Others(old(table.rows), chn) + SavedRows(chn, schedule.days, 0, schedule.enable)
    ensures forall other :: other != chn ==> Own(table.rows, other) == Own(old(table.rows), other)
  {
    SavedRowsFound(table.rows, schedule.days, chn, schedule.enable);
    var _ := table.Save(schedule, chn);
    back := LoadCleared(table, chn, schedule.days, schedule.enable);
  }

  // ----- what survives ---------------------------------------------------------------------

  lemma {:induction false} KeptConcat(a: seq<Item>, b: seq<Item>)
    ensures Kept(a + b) == Kept(a) + Kept(b)
  {
    if a == [] {
      assert a + b == b;
    } else {
      KeptConcat(a[1..], b);
      KeptCons(a[0], a[1..]);
      KeptCons(a[0], a[1..] + b);
      ConcatAssoc(if Skipped(a[0]) then [] else [a[0]], Kept(a[1..]), Kept(b));
      assert a == [a[0]] + a[1..] && a + b == [a[0]] + (a[1..] + b);
    }
  }

  lemma KeptCons(x: Item, s: seq<Item>)
    ensures Kept([x] + s) == (if Skipped(x) then [] else [x]) + Kept(s)
  {
    assert ([x] + s)[1..] == s;
  }

  lemma {:induction false} KeptAll(items: seq<Item>)
    requires forall i :: 0 <= i < |items| ==> !Skipped(items[i])
    ensures Kept(items) == items
  {
    if items == [] {
    } else {
      KeptAll(items[1..]);
    }
  }

  lemma {:induction false} KeptNone(items: seq<Item>)
    requires forall i :: 0 <= i < |items| ==> Skipped(items[i])
    ensures Kept(items) == []
  {
    if items == [] {
    } else {
      KeptNone(items[1..]);
    }
  }

  lemma NothingSkipped()
    ensures Skipped(MARKER) && Skipped(NO_ITEM)
  {
  }

  lemma MovedSplit(day: Day)
    ensures var (kept, n) := (Kept(day.items), |Kept(day.items)|);
            && Moved(day) == Moved(day)[..n] + Moved(day)[n..]
            && Moved(day)[..n] == (if Marked(day) && n > 0 then [MARKER] + kept[1..] else kept)
            && forall i :: n <= i < |Moved(day)| ==> Moved(day)[i] == MARKER || Moved(day)[i] == NO_ITEM
  {
  }

  /** Items that are not saved do not count at the end. */
  lemma KeptFront(s: seq<Item>, n: nat)
    requires n <= |s| && forall i :: n <= i < |s| ==> Skipped(s[i])
    ensures Kept(s) == Kept(s[..n])
  {
    var front, back := s[..n], s[n..];
    forall i | 0 <= i < |back| ensures Skipped(back[i]) { assert back[i] == s[n + i]; }
    KeptNone(back);
    KeptConcat(front, back);
    assert s == front + back && Kept(front) + [] == Kept(front);
  }

  /** A marker in front of kept items. */
  lemma KeptBehindMarker(kept: seq<Item>)
    requires forall i :: 0 <= i < |kept| ==> !Skipped(kept[i])
    ensures Kept(kept) == kept && Kept([MARKER] + kept) == kept
  {
    NothingSkipped();
    KeptAll(kept);
    KeptCons(MARKER, kept);
  }

  lemma KeptMoved(day: Day)
    ensures Kept(Moved(day))
            == if LosesItem(day) then Kept(day.items)[1..] else Kept(day.items)
  {
    var kept := Kept(day.items);
    NothingSkipped();
    MovedSplit(day);
    KeptFront(Moved(day), |kept|);
    if LosesItem(day) {
      KeptBehindMarker(kept[1..]);
    } else {
      KeptBehindMarker(kept);
    }
  }

  /** The items that come back: all of them, without the first one under a marker. */
  lemma KeptReloaded(day: Day)
    ensures Kept(Reloaded(day).items)
            == if LosesItem(day) then Kept(day.items)[1..] else Kept(day.items)
  {
    if HasRows(day) {
      KeptMoved(day);
    } else {
      NothingSkipped();
      KeptNone(Reloaded(day).items);
    }
  }

  /** The items of a day survive, in order, exactly when no marker is written over the first. With
      as many slots as plans that is always so. */
  lemma ItemsSurviveIff(day: Day)
    ensures Kept(Reloaded(day).items) == Kept(day.items) <==> !LosesItem(day)
    ensures |day.items| == 12 ==> Kept(Reloaded(day).items) == Kept(day.items)
  {
    KeptReloaded(day);
    if LosesItem(day) {
      assert |Kept(Reloaded(day).items)| < |Kept(day.items)|;
    }
  }

  /** The flag of a day survives exactly when it was not set or a row was written. With more slots
      than plans that takes an item: an enabled day without items comes back disabled. With as
      many slots as plans it is always so. */
  lemma FlagSurvivesIff(day: Day)
    ensures Reloaded(day).wholeDay == day.wholeDay <==> day.wholeDay == 0 || HasRows(day)
    ensures |day.items| > 12 ==>
              (Reloaded(day).wholeDay == day.wholeDay <==> day.wholeDay == 0 || Kept(day.items) != [])
    ensures |day.items| == 12 ==> Reloaded(day).wholeDay == day.wholeDay
  {
  }

  /** The flag of an enabled day without items is lost. */
  lemma FlagLost()
    ensures var day := ClearedDay(48).(wholeDay := 1); Reloaded(day).wholeDay == 0
  {
    var day := ClearedDay(SLOTS).(wholeDay := 1);
    NothingSkipped();
    KeptNone(day.items);
  }

  /** A day with the flag, and with as many free slots as there are plans, loses its first item. */
  lemma ItemLost(items: seq<Item>)
    requires |items| == 36 && forall i :: 0 <= i < |items| ==> !Skipped(items[i])
    ensures var day := Day(items + ClearedDay(MAX_PLAN_NUM_PER_DAY).items, 1, 1);
            |day.items| == 48 && Kept(day.items) == items && Kept(Reloaded(day).items) == items[1..]
  {
    var free := ClearedDay(MAX_PLAN_NUM_PER_DAY).items;
    NothingSkipped();
    KeptConcat(items, free);
    KeptAll(items);
    KeptNone(free);
    KeptReloaded(Day(items + free, 1, 1));
  }

  // ----- saving what was loaded ----------------------------------------------------------------

  lemma RowsOfReloaded(chn: int, i: nat, day: Day, enable: int)
    ensures |RowsOfDay(chn, i, Reloaded(day), enable)| <= |RowsOfDay(chn, i, day, enable)|
    ensures RowsOfDay(chn, i, Reloaded(day), enable) == RowsOfDay(chn, i, day, enable)
            || |RowsOfDay(chn, i, Reloaded(day), enable)| < |RowsOfDay(chn, i, day, enable)|
    ensures RowsOfDay(chn, i, Reloaded(day), enable) == RowsOfDay(chn, i, day, enable)
            <==> !LosesItem(day)
  {
    KeptReloaded(day);
    ItemRowsSame(Kept(day.items), chn, i, day, Reloaded(day), 0, enable);
  }

  lemma {:induction false} ItemRowsSame(kept: seq<Item>, chn: int, i: nat, day: Day, day': Day, t: nat, enable: int)
    requires kept != [] ==> day'.wholeDay == day.wholeDay && day'.wholeDayAction == day.wholeDayAction
    ensures ItemRows(kept, chn, i, day, t, enable) == ItemRows(kept, chn, i, day', t, enable)
  {
    if kept == [] {
    } else {
      ItemRowsSame(kept[1..], chn, i, day, day', t + 1, enable);
    }
  }

  ghost predicate LosesFirst(days: seq<Day>, i: nat) {
    exists k :: i <= k < |days| && LosesItem(days[k])
  }

  lemma {:induction false} ResaveDays(days: seq<Day>, chn: int, i: nat, enable: int)
    requires i <= |days|
    ensures var (a, b) := (SavedRows(chn, UpTo(days, |days|), i, enable), SavedRows(chn, days, i, enable));
            |a| <= |b| && (a == b <==> !LosesFirst(days, i)) && (LosesFirst(days, i) ==> |a| < |b|)
    decreases |days| - i
  {
    if i >= |days| {
    } else {
      ResaveDays(days, chn, i + 1, enable);
      RowsOfReloaded(chn, i, days[i], enable);
      assert UpTo(days, |days|)[i] == Reloaded(days[i]);
      assert LosesFirst(days, i) <==> LosesItem(days[i]) || LosesFirst(days, i + 1);
    }
  }

  /** Saving what was loaded writes the same rows again exactly when no day lost its first item. */
  lemma ResaveIff(days: seq<Day>, chn: int, enable: int)
    ensures SavedRows(chn, UpTo(days, |days|), 0, enable) == SavedRows(chn, days, 0, enable)
            <==> !LosesFirst(days, 0)
  {
    ResaveDays(days, chn, 0, enable);
  }

  lemma {:induction false} AnyEnable(days: seq<Day>, chn: int, i: nat, enable: int, enable': int)
    requires i <= |days|
    ensures |SavedRows(chn, days, i, enable)| == |SavedRows(chn, days, i, enable')|
    decreases |days| - i
  {
    if i >= |days| {
    } else {
      AnyEnable(days, chn, i + 1, enable, enable');
    }
  }

  /** The flag of the schedule comes back with the rows; without rows it does not matter. */
  lemma ResaveLoaded(days: seq<Day>, chn: int, enable: int)
    ensures var rows := SavedRows(chn, days, 0, enable);
            SavedRows(chn, UpTo(days, |days|), 0, if rows == [] then 0 else enable) == rows <==> !LosesFirst(days, 0)
  {
    ResaveDays(days, chn, 0, enable);
    ResaveDays(days, chn, 0, 0);
    AnyEnable(days, chn, 0, enable, 0);
  }

  lemma SamePrefix<T>(p: seq<T>, a: seq<T>, b: seq<T>)
    ensures p + a == p + b <==> a == b
  {
    assert (p + a)[|p|..] == a && (p + b)[|p|..] == b;
  }

  /** Save, load and save again: the table is as after the first time exactly when no day lost its
      first item. once is what it held then. */
  method SaveLoadSave(table: RecordTable, schedule: Schedule, chn: int) returns (ghost once: seq<RecordRow>)
    requires schedule.Shaped() && chn >= 0
    modifies table
    ensures once == Others(old(table.rows), chn) + SavedRows(chn, schedule.days, 0, schedule.enable)
    ensures table.rows == once <==> !LosesFirst(schedule.days, 0)
  {
    SavedRowsFound(table.rows, schedule.days, chn, schedule.enable);
    var back := SaveAndLoad(table, schedule, chn);
    once := table.rows;
    ghost var others := Others(once, chn);
    var _ := table.Save(back, chn);
    SamePrefix(others, SavedRows(chn, back.days, 0, back.enable),
               SavedRows(chn, schedule.days, 0, schedule.enable));
    ResaveLoaded(schedule.days, chn, schedule.enable);
  }

  lemma MovedAt(day: Day, j: nat)
    requires j < |day.items|
    ensures var kept := Kept(day.items);
            Moved(day)[j] == if j == 0 && Marked(day) then MARKER else if j < |kept| then kept[j] else NO_ITEM
  {
  }

  /** What comes back depends on the kept items and the flag alone. */
  lemma ReloadedSame(a: Day, b: Day)
    requires |a.items| == |b.items| && Kept(a.items) == Kept(b.items)
    requires a.wholeDay == b.wholeDay && a.wholeDayAction == b.wholeDayAction
    ensures Reloaded(a) == Reloaded(b)
  {
    assert Marked(a) == Marked(b);
    forall j | 0 <= j < |a.items| ensures Moved(a)[j] == Moved(b)[j] {
      MovedAt(a, j);
      MovedAt(b, j);
    }
  }

  lemma ReloadedAgain(day: Day)
    requires !LosesItem(day)
    ensures Reloaded(Reloaded(day)) == Reloaded(day)
  {
    KeptReloaded(day);
    if HasRows(day) {
      ReloadedSame(Reloaded(day), day);
    } else {
      assert ClearedDay(|Reloaded(day).items|) == Reloaded(day);
    }
  }

  /** A day that comes back is the same when it is saved and loaded a second time exactly when it
      lost no item the first time: else its items move up. */
  lemma ReloadedOnceIff(day: Day)
    ensures Reloaded(Reloaded(day)) == Reloaded(day) <==> !LosesItem(day)
  {
    KeptReloaded(day);
    if LosesItem(day) {
      assert Reloaded(day).items[0] == MARKER;
      var kept := Kept(Reloaded(day).items);
      if kept != [] {
        assert !Marked(Reloaded(day));
        assert Reloaded(Reloaded(day)).items[0] == kept[0];
        assert !Skipped(kept[0]);
        NothingSkipped();
      } else {
        assert !HasRows(Reloaded(day));
        assert Reloaded(Reloaded(day)).wholeDay == 0;
      }
    } else {
      ReloadedAgain(day);
    }
  }

  /** A second time nothing is lost, and a third changes nothing more. */
  lemma ReloadedStays(day: Day)
    ensures !LosesItem(Reloaded(day)) && Reloaded(Reloaded(Reloaded(day))) == Reloaded(Reloaded(day))
  {
    KeptReloaded(day);
    ReloadedAgain(Reloaded(day));
  }
}
