/** The tables of msdb.c that hold one row for every slot of a fixed grid: the schedules of motion
    and the like, and the tours of a PTZ camera. A table is the sequence of its rows, oldest
    first, which is the order SQLite scans a table without a key in. */
module SlotGrid {
  import opened Sequences

  const MAX_DAY_NUM: nat := 8
  const MAX_PLAN_NUM_PER_DAY: nat := 12
  const TOUR_MAX: nat := 8
  const KEY_MAX: nat := 48

  /** struct schdule_item */
  datatype Item = Item(start: string, end: string, action: int)

  function Lower(c: char): char {
    if 'A' <= c <= 'Z' then (c as int + 32) as char else c
  }

  /** strcasecmp(s, t) == 0 */
  predicate SameText(s: string, t: string) {
    |s| == |t| && forall i :: 0 <= i < |s| ==> Lower(s[i]) == Lower(t[i])
  }

  /** A time of day as it is written: digits and colons. */
  predicate Clock(s: string) {
    forall i :: 0 <= i < |s| ==> '0' <= s[i] <= '9' || s[i] == ':'
  }

  /** The slots write_motion_schedule saves. */
  predicate KeepItem(it: Item) { !SameText(it.start, it.end) }

  /** struct ptz_key */
  datatype PtzKey = PtzKey(preset: int, timeout: int, speed: int)

  /** The slots write_ptz_tour saves: presets are numbered from 1. */
  predicate KeepKey(key: PtzKey) { key.preset != 0 }

  /** The owner is the channel, or the camera; day and plan are the place in the grid. */
  datatype Row<T> = Row(owner: int, day: nat, plan: nat, item: T)

  /** select .. where owner=.. */
  function Own<T>(rows: seq<Row<T>>, owner: int): (r: seq<Row<T>>)
    ensures forall i :: 0 <= i < |r| ==> r[i].owner == owner && r[i] in rows
  {
    if rows == [] then []
    else if rows[0].owner == owner then [rows[0]] + Own(rows[1..], owner)
    else Own(rows[1..], owner)
  }

  /** delete .. where owner=.. */
  function Others<T>(rows: seq<Row<T>>, owner: int): seq<Row<T>> {
    if rows == [] then []
    else if rows[0].owner == owner then Others(rows[1..], owner)
    else [rows[0]] + Others(rows[1..], owner)
  }

  /** The rows for the slots of one day from plan j on. */
  function DayRows<T>(items: seq<T>, keep: T -> bool, owner: int, i: nat, j: nat): seq<Row<T>>
    decreases |items| - j
  {
    if j >= |items| then []
    else (if keep(items[j]) then [Row(owner, i, j, items[j])] else []) + DayRows(items, keep, owner, i, j + 1)
  }

  /** The rows for the days from day i on. */
  function GridRows<T>(grid: seq<seq<T>>, keep: T -> bool, owner: int, i: nat): seq<Row<T>>
    decreases |grid| - i
  {
    if i >= |grid| then [] else DayRows(grid[i], keep, owner, i, 0) + GridRows(grid, keep, owner, i + 1)
  }

  /** What is in a slot after rows were loaded one after the other over d. */
  function Cell<T>(rows: seq<Row<T>>, i: nat, j: nat, d: T): T {
    if rows == [] then d
    else
      var last := rows[|rows| - 1];
      if last.day == i && last.plan == j then last.item else Cell(rows[..|rows| - 1], i, j, d)
  }

  class Table<T> {
    var rows: seq<Row<T>>

    constructor ()
      ensures rows == []
    {
      rows := [];
    }

    /** write_motion_schedule, write_ptz_tour: delete the owner's rows, insert one for every slot
        that is kept. */
    method Save(grid: seq<seq<T>>, keep: T -> bool, owner: int) returns (r: int)
      modifies this
      ensures owner < 0 ==> r == -1 && rows == old(rows)
      ensures owner >= 0 ==> r == 0 && rows == Others(old(rows), owner) + GridRows(grid, keep, owner, 0)
    {
      if owner < 0 {
        return -1;
      }
      rows := Others(rows, owner);
      var i := 0;
      while i < |grid|
        invariant i <= |grid|
        invariant rows + GridRows(grid, keep, owner, i)
                  == Others(old(rows), owner) + GridRows(grid, keep, owner, 0)
      {
        ghost var before := rows;
        var j := 0;
        while j < |grid[i]|
          invariant j <= |grid[i]|
          invariant rows + DayRows(grid[i], keep, owner, i, j) == before + DayRows(grid[i], keep, owner, i, 0)
        {
          if !keep(grid[i][j]) {
            j := j + 1;
            continue;
          }
          ConcatAssoc(rows, [Row(owner, i, j, grid[i][j])], DayRows(grid[i], keep, owner, i, j + 1));
          rows := rows + [Row(owner, i, j, grid[i][j])];
          j := j + 1;
        }
        ConcatAssoc(before, DayRows(grid[i], keep, owner, i, 0), GridRows(grid, keep, owner, i + 1));
        i := i + 1;
      }
      return 0;
    }

    /** read_motion_schedule, read_ptz_tour: copy the owner's rows into the structure, at most one
        more than loopCnt. The structure may have more places than are saved: a day of a motion
        schedule has room for the plans of every window. Only the tours check the owner first. */
    method Load(grid: array2<T>, owner: int, checked: bool, loopCnt: nat) returns (r: int)
      requires forall k :: 0 <= k < |Own(rows, owner)| ==>
                 Own(rows, owner)[k].day < grid.Length0 && Own(rows, owner)[k].plan < grid.Length1
      modifies grid
      ensures var own := Own(rows, owner);
              var used := own[..Min(|own|, loopCnt + 1)];
              var refused := own == [] || (checked && owner < 0);
              && r == (if refused then -1 else 0)
              && forall i: nat, j: nat :: i < grid.Length0 && j < grid.Length1 ==>
                   grid[i, j] == if refused then old(grid[i, j]) else Cell(used, i, j, old(grid[i, j]))
    {
      if checked && owner < 0 {
        return -1;
      }
      var own := Own(rows, owner);
      if |own| == 0 {
        return -1;
      }
      var k := 0;
      while k <= loopCnt
        invariant k < |own| && k <= loopCnt + 1
        invariant forall i: nat, j: nat :: i < grid.Length0 && j < grid.Length1 ==>
                    grid[i, j] == Cell(own[..k], i, j, old(grid[i, j]))
      {
        assert own[..k + 1][..k] == own[..k];
        grid[own[k].day, own[k].plan] := own[k].item;
        if k + 1 >= |own| {
          k := k + 1;
          break;
        }
        k := k + 1;
      }
      return 0;
    }
  }
}
