/** Saving a grid and loading it again. */
module SlotGridLaws {
  import opened Sequences
  import opened SlotGrid

  // ----- which slots are kept ----------------------------------------------------------------

  /** Texts are the same when they have one length and differ in no character but in the case of
      letters. */
  lemma SameTextIff(s: string, t: string)
    ensures SameText(s, t) <==>
              && |s| == |t|
              && forall i :: 0 <= i < |s| ==>
                   || s[i] == t[i]
                   || ('A' <= s[i] <= 'Z' && t[i] as int == s[i] as int + 32)
                   || ('A' <= t[i] <= 'Z' && s[i] as int == t[i] as int + 32)
  {
  }

  /** A text without letters is the same as itself alone. */
  lemma SameWithoutLetters(s: string, t: string)
    requires forall i :: 0 <= i < |s| ==> !('A' <= s[i] <= 'Z') && !('a' <= s[i] <= 'z')
    ensures SameText(s, t) <==> s == t
  {
    SameTextIff(s, t);
    if |s| == |t| && s != t {
      var i :| 0 <= i < |s| && s[i] != t[i];
    }
  }

  lemma KeepItemIff(it: Item)
    requires Clock(it.start)
    ensures KeepItem(it) <==> it.start != it.end
  {
    SameWithoutLetters(it.start, it.end);
  }

  // ----- what a load finds ---------------------------------------------------------------------

  lemma {:induction false} CellConcat<T>(a: seq<Row<T>>, b: seq<Row<T>>, i: nat, j: nat, d: T)
    ensures Cell(a + b, i, j, d) == Cell(b, i, j, Cell(a, i, j, d))
    decreases |b|
  {
    if b == [] {
      assert a + b == a;
    } else {
      CellConcat(a, b[..|b| - 1], i, j, d);
      assert (a + b)[..|a + b| - 1] == a + b[..|b| - 1];
    }
  }

  lemma {:induction false} CellDay<T>(items: seq<T>, keep: T -> bool, owner: int, i: nat, j0: nat,
                                      i': nat, j: nat, d: T)
    ensures Cell(DayRows(items, keep, owner, i, j0), i', j, d)
            == if i == i' && j0 <= j < |items| && keep(items[j]) then items[j] else d
    decreases |items| - j0
  {
    if j0 >= |items| {
    } else {
      var row := if keep(items[j0]) then [Row(owner, i, j0, items[j0])] else [];
      CellConcat(row, DayRows(items, keep, owner, i, j0 + 1), i', j, d);
      CellDay(items, keep, owner, i, j0 + 1, i', j, Cell(row, i', j, d));
    }
  }

  lemma {:induction false} CellGrid<T>(grid: seq<seq<T>>, keep: T -> bool, owner: int, i0: nat, i: nat, j: nat, d: T)
    ensures Cell(GridRows(grid, keep, owner, i0), i, j, d)
            == if i0 <= i < |grid| && j < |grid[i]| && keep(grid[i][j]) then grid[i][j] else d
    decreases |grid| - i0
  {
    if i0 >= |grid| {
    } else {
      var day := DayRows(grid[i0], keep, owner, i0, 0);
      CellConcat(day, GridRows(grid, keep, owner, i0 + 1), i, j, d);
      CellDay(grid[i0], keep, owner, i0, 0, i, j, d);
      CellGrid(grid, keep, owner, i0 + 1, i, j, Cell(day, i, j, d));
    }
  }

  lemma {:induction false} DayRowsFit<T>(items: seq<T>, keep: T -> bool, owner: int, i: nat, j: nat)
    requires j <= |items|
    ensures |DayRows(items, keep, owner, i, j)| <= |items| - j
    ensures forall r :: r in DayRows(items, keep, owner, i, j) ==> r.owner == owner && r.day == i && r.plan < |items|
    decreases |items| - j
  {
    if j >= |items| {
    } else {
      DayRowsFit(items, keep, owner, i, j + 1);
    }
  }

  lemma {:induction false} GridRowsFit<T>(grid: seq<seq<T>>, keep: T -> bool, owner: int, i: nat, width: nat)
    requires i <= |grid| && forall k :: 0 <= k < |grid| ==> |grid[k]| == width
    ensures |GridRows(grid, keep, owner, i)| <= (|grid| - i) * width
    ensures forall r :: r in GridRows(grid, keep, owner, i) ==> r.owner == owner && r.day < |grid| && r.plan < width
    decreases |grid| - i
  {
    if i >= |grid| {
    } else {
      DayRowsFit(grid[i], keep, owner, i, 0);
      GridRowsFit(grid, keep, owner, i + 1, width);
      assert (|grid| - i) * width == (|grid| - i - 1) * width + width;
    }
  }

  lemma {:induction false} OthersThenOwn<T>(rows: seq<Row<T>>, mine: seq<Row<T>>, owner: int)
    requires forall r :: r in mine ==> r.owner == owner
    ensures Own(Others(rows, owner) + mine, owner) == mine
    ensures Others(Others(rows, owner) + mine, owner) == Others(rows, owner)
  {
    if rows == [] {
      AllMine(mine, owner);
      assert [] + mine == mine;
    } else {
      OthersThenOwn(rows[1..], mine, owner);
      var rest := Others(rows[1..], owner);
      assert ([rows[0]] + rest + mine)[1..] == rest + mine;
    }
  }

  lemma {:induction false} AllMine<T>(mine: seq<Row<T>>, owner: int)
    requires forall r :: r in mine ==> r.owner == owner
    ensures Own(mine, owner) == mine && Others(mine, owner) == []
  {
    if mine == [] {
    } else {
      assert mine[0] in mine;
      AllMine(mine[1..], owner);
    }
  }

  lemma {:induction false} OtherOwners<T>(rows: seq<Row<T>>, mine: seq<Row<T>>, owner: int, other: int)
    requires other != owner && forall r :: r in mine ==> r.owner == owner
    ensures Own(Others(rows, owner) + mine, other) == Own(rows, other)
  {
    if rows == [] {
      NoneMine(mine, owner, other);
      assert [] + mine == mine;
    } else {
      OtherOwners(rows[1..], mine, owner, other);
      var rest := Others(rows[1..], owner);
      assert ([rows[0]] + rest + mine)[1..] == rest + mine;
    }
  }

  lemma {:induction false} NoneMine<T>(mine: seq<Row<T>>, owner: int, other: int)
    requires other != owner && forall r :: r in mine ==> r.owner == owner
    ensures Own(mine, other) == []
  {
    if mine == [] {
    } else {
      assert mine[0] in mine;
      NoneMine(mine[1..], owner, other);
    }
  }

  /** After a save, over whatever was in the table: a load into any grid fills the slots that
      were kept and leaves the others alone, the bound on the loop drops no row, and no other
      owner can tell the difference. */
  lemma SaveThenLoad<T>(rows: seq<Row<T>>, grid: seq<seq<T>>, keep: T -> bool, owner: int, width: nat)
    requires forall k :: 0 <= k < |grid| ==> |grid[k]| == width
    ensures var after := Others(rows, owner) + GridRows(grid, keep, owner, 0);
            var own := Own(after, owner);
            && own[..Min(|own|, |grid| * width + 1)] == own
            && (forall k :: 0 <= k < |own| ==> own[k].day < |grid| && own[k].plan < width)
            && (forall i: nat, j: nat, d: T :: i < |grid| && j < width ==>
                  Cell(own, i, j, d) == if keep(grid[i][j]) then grid[i][j] else d)
            && (forall other :: other != owner ==> Own(after, other) == Own(rows, other))
  {
    var mine := GridRows(grid, keep, owner, 0);
    GridRowsFit(grid, keep, owner, 0, width);
    OthersThenOwn(rows, mine, owner);
    forall i: nat, j: nat, d: T | i < |grid| && j < width
      ensures Cell(mine, i, j, d) == if keep(grid[i][j]) then grid[i][j] else d
    {
      CellGrid(grid, keep, owner, 0, i, j, d);
    }
    forall other | other != owner ensures Own(Others(rows, owner) + mine, other) == Own(rows, other) {
      OtherOwners(rows, mine, owner, other);
    }
  }

  /** Save, and then load into a structure of at least that size, whatever it held. */
  method SaveAndLoad<T>(table: Table<T>, grid: seq<seq<T>>, keep: T -> bool, owner: int, checked: bool,
                        ghost width: nat, loopCnt: nat, back: array2<T>)
    requires owner >= 0 && (forall k :: 0 <= k < |grid| ==> |grid[k]| == width) && loopCnt == |grid| * width
    requires back.Length0 == |grid| && back.Length1 >= width
    modifies table, back
    ensures forall i: nat, j: nat :: i < |grid| && j < back.Length1 ==>
              back[i, j] == if j < width && keep(grid[i][j]) then grid[i][j] else old(back[i, j])
    ensures forall other :: other != owner ==> Own(table.rows, other) == Own(old(table.rows), other)
  {
    SaveThenLoad(table.rows, grid, keep, owner, width);
    GridRowsFound(table.rows, grid, keep, owner, width);
    var _ := table.Save(grid, keep, owner);
    var _ := table.Load(back, owner, checked, loopCnt);
  }

  /** The owner finds the rows of the save, and loading them fills the kept slots. */
  lemma GridRowsFound<T>(rows: seq<Row<T>>, grid: seq<seq<T>>, keep: T -> bool, owner: int, width: nat)
    requires forall k :: 0 <= k < |grid| ==> |grid[k]| == width
    ensures var mine := GridRows(grid, keep, owner, 0);
            && Own(Others(rows, owner) + mine, owner) == mine
            && forall i: nat, j: nat, d: T :: i < |grid| ==>
                 Cell(mine, i, j, d) == if j < width && keep(grid[i][j]) then grid[i][j] else d
  {
    var mine := GridRows(grid, keep, owner, 0);
    GridRowsFit(grid, keep, owner, 0, width);
    OthersThenOwn(rows, mine, owner);
    forall i: nat, j: nat, d: T | i < |grid|
      ensures Cell(mine, i, j, d) == if j < width && keep(grid[i][j]) then grid[i][j] else d
    {
      CellGrid(grid, keep, owner, 0, i, j, d);
    }
  }

  /** The rows depend on the kept slots alone. */
  lemma {:induction false} SameDayRows<T>(a: seq<T>, b: seq<T>, keep: T -> bool, owner: int, i: nat, j: nat)
    requires |a| == |b|
    requires forall k :: 0 <= k < |a| ==> (keep(a[k]) <==> keep(b[k])) && (keep(a[k]) ==> a[k] == b[k])
    ensures DayRows(a, keep, owner, i, j) == DayRows(b, keep, owner, i, j)
    decreases |a| - j
  {
    if j >= |a| {
    } else {
      SameDayRows(a, b, keep, owner, i, j + 1);
    }
  }

  /** back is what a load of the items leaves in slots that were empty. */
  ghost predicate LoadedOver<T>(items: seq<T>, back: seq<T>, keep: T -> bool, empty: T) {
    && |back| == |items|
    && forall j :: 0 <= j < |items| ==> back[j] == if keep(items[j]) then items[j] else empty
  }

  lemma ResaveDay<T>(items: seq<T>, back: seq<T>, keep: T -> bool, owner: int, empty: T, i: nat)
    requires LoadedOver(items, back, keep, empty) && !keep(empty)
    ensures DayRows(back, keep, owner, i, 0) == DayRows(items, keep, owner, i, 0)
  {
    SameDayRows(back, items, keep, owner, i, 0);
  }

  /** What came back from a load over slots that would be skipped is saved as the same rows. */
  lemma {:induction false} Resave<T>(grid: seq<seq<T>>, back: seq<seq<T>>, keep: T -> bool, owner: int,
                                     empty: T, i: nat)
    requires |back| == |grid| && !keep(empty)
    requires forall k :: 0 <= k < |grid| ==> LoadedOver(grid[k], back[k], keep, empty)
    ensures GridRows(back, keep, owner, i) == GridRows(grid, keep, owner, i)
    decreases |grid| - i
  {
    if i >= |grid| {
    } else {
      ResaveDay(grid[i], back[i], keep, owner, empty, i);
      Resave(grid, back, keep, owner, empty, i + 1);
    }
  }

  /** read_motion_schedule after write_motion_schedule, with the sizes of msdb.h. */
  lemma MotionRoundTrip(rows: seq<Row<Item>>, grid: seq<seq<Item>>, chn: int, i: nat, j: nat, d: Item)
    requires |grid| == 8 && forall k :: 0 <= k < |grid| ==> |grid[k]| == 12
    requires i < 8 && j < 12
    ensures var own := Own(Others(rows, chn) + GridRows(grid, KeepItem, chn, 0), chn);
            && |own| <= MAX_DAY_NUM * MAX_PLAN_NUM_PER_DAY == 96
            && (Clock(grid[i][j].start) ==>
                  Cell(own, i, j, d) == if grid[i][j].start == grid[i][j].end then d else grid[i][j])
            && Cell(own, i, j, d) == (if SameText(grid[i][j].start, grid[i][j].end) then d else grid[i][j])
            && forall other :: other != chn ==>
                 Own(Others(rows, chn) + GridRows(grid, KeepItem, chn, 0), other) == Own(rows, other)
  {
    if Clock(grid[i][j].start) { KeepItemIff(grid[i][j]); }
    SaveThenLoad(rows, grid, KeepItem, chn, MAX_PLAN_NUM_PER_DAY);
    GridRowsFit(grid, KeepItem, chn, 0, MAX_PLAN_NUM_PER_DAY);
    OthersThenOwn(rows, GridRows(grid, KeepItem, chn, 0), chn);
  }

  /** read_ptz_tour after write_ptz_tour, with the sizes of msdefs.h. */
  lemma TourRoundTrip(rows: seq<Row<PtzKey>>, tours: seq<seq<PtzKey>>, ptz: int, i: nat, j: nat, d: PtzKey)
    requires |tours| == 8 && forall k :: 0 <= k < |tours| ==> |tours[k]| == 48
    requires i < 8 && j < 48
    ensures var own := Own(Others(rows, ptz) + GridRows(tours, KeepKey, ptz, 0), ptz);
            && |own| <= TOUR_MAX * KEY_MAX == 384
            && Cell(own, i, j, d) == (if tours[i][j].preset == 0 then d else tours[i][j])
            && forall other :: other != ptz ==>
                 Own(Others(rows, ptz) + GridRows(tours, KeepKey, ptz, 0), other) == Own(rows, other)
  {
    SaveThenLoad(rows, tours, KeepKey, ptz, KEY_MAX);
    GridRowsFit(tours, KeepKey, ptz, 0, KEY_MAX);
    OthersThenOwn(rows, GridRows(tours, KeepKey, ptz, 0), ptz);
  }
}
