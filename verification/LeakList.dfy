/** The linked list of memory.c (MS_LEAK_DETECT): head ptr_start, tail ptr_next. */
module LeakList {
  import opened CText
  import opened LeakRecords

  /** struct mem_leak */
  class LeakNode {
    var info: MemInfo
    var next: LeakNode?

    constructor (info: MemInfo)
      ensures this.info == info && next == null
    {
      this.info, next := info, null;
    }
  }

  /** Nodes without repetition, one of them taken out. */
  lemma TakenOut(s: seq<LeakNode>, i: nat)
    requires i < |s| && forall j, k :: 0 <= j < k < |s| ==> s[j] != s[k]
    ensures var t := s[..i] + s[i + 1..];
            forall n :: n in t <==> n in s && n != s[i]
  {
    var t := s[..i] + s[i + 1..];
    forall n | n in s && n != s[i] ensures n in t {
      var j :| 0 <= j < |s| && s[j] == n;
      assert if j < i then t[j] == n else t[j - 1] == n;
    }
  }

  class Tracker {
    var start: LeakNode?
    var last: LeakNode?
    ghost var Nodes: seq<LeakNode>
    ghost var Records: seq<MemInfo>
    /** Nodes obtained from malloc and not handed to free yet. */
    ghost var Heap: set<LeakNode>

    /** The chain from start is Nodes, without repetition, and ends in null; its nodes hold
        Records. */
    ghost predicate Chain()
      reads this, Nodes
    {
      && start == (if Nodes == [] then null else Nodes[0])
      && (forall i {:trigger Nodes[i].next} :: 0 <= i < |Nodes| ==>
            Nodes[i].next == if i + 1 < |Nodes| then Nodes[i + 1] else null)
      && (forall i, j :: 0 <= i < j < |Nodes| ==> Nodes[i] != Nodes[j])
      && |Records| == |Nodes|
      && (forall i :: 0 <= i < |Nodes| ==> Nodes[i].info == Records[i])
    }

    /** The tail pointer is right whenever there is a list; with an empty list it may be left
        over. No node leaks. */
    ghost predicate Valid()
      reads this, Nodes
    {
      && Chain()
      && (Nodes != [] ==> last == Nodes[|Nodes| - 1])
      && (forall n :: n in Nodes ==> n in Heap) && (forall n :: n in Heap ==> n in Nodes)
    }

    constructor ()
      ensures Valid() && Records == []
    {
      start, last := null, null;
      Nodes, Records, Heap := [], [], {};
    }

    /** add: append a copy of info, stamped with the time; a failed malloc loses the record. */
    method Append(info: MemInfo, now: string, allocOk: bool)
      requires Valid()
      modifies this, Nodes
      ensures Valid()
      ensures Records == if allocOk
                           then old(Records) + [info.(file := Clip(info.file, FILE_SIZE), time := now)]
                           else old(Records)
      ensures old(Nodes) <= Nodes && |Nodes| == |old(Nodes)| + (if allocOk then 1 else 0)
      ensures forall i :: |old(Nodes)| <= i < |Nodes| ==> fresh(Nodes[i])
    {
      if !allocOk {
        return;
      }
      var leak := new LeakNode(info.(file := Clip(info.file, FILE_SIZE), time := now));
      Heap := Heap + {leak};
      if start == null {
        start := leak;
        last := start;
      } else {
        assert last in Heap;
        last.next := leak;
        last := last.next;
      }
      Nodes, Records := Nodes + [leak], Records + [leak.info];
    }

    /** leak->next = temp->next, where leak is at index k. */
    method Unlink(leak: LeakNode, temp: LeakNode, ghost k: nat)
      requires Chain()
      requires k + 1 < |Nodes| && leak == Nodes[k] && temp == Nodes[k + 1]
      modifies `Nodes, `Records, leak
      ensures Chain()
      ensures Nodes == old(Nodes)[..k + 1] + old(Nodes)[k + 2..]
      ensures Records == old(Records)[..k + 1] + old(Records)[k + 2..]
      ensures leak.next == if k + 1 < |Nodes| then Nodes[k + 1] else null
    {
      leak.next := temp.next;
      Nodes, Records := Nodes[..k + 1] + Nodes[k + 2..], Records[..k + 1] + Records[k + 2..];
    }

    /** The body of the walking branch of erase: free the node after leak, which is at index k. */
    method EraseAfter(leak: LeakNode, ghost k: nat)
      requires Valid()
      requires k + 1 < |Nodes| && leak == Nodes[k]
      modifies this, leak
      ensures Valid()
      ensures Nodes == old(Nodes)[..k + 1] + old(Nodes)[k + 2..]
      ensures Records == old(Records)[..k + 1] + old(Records)[k + 2..]
    {
      var temp := leak.next;
      TakenOut(Nodes, k + 1);
      Unlink(leak, temp, k);
      assert temp in Heap;
      Heap := Heap - {temp};
      if leak.next == null {
        last := leak;
      }
    }

    /** The branch of erase for the head: the tail pointer is left alone. */
    method EraseFirst()
      requires Valid()
      requires Nodes != []
      modifies this
      ensures Valid()
      ensures Nodes == old(Nodes)[1..] && Records == old(Records)[1..] && last == old(last)
    {
      var leak := start;
      start := start.next;
      assert leak in Heap;
      Heap := Heap - {leak};
      Nodes, Records := Nodes[1..], Records[1..];
    }

    /** erase: unlink and free the node at index pos. */
    method Erase(pos: nat)
      requires Valid()
      requires pos < |Nodes|
      modifies this, Nodes
      ensures Valid()
      ensures Nodes == old(Nodes)[..pos] + old(Nodes)[pos + 1..]
      ensures Records == old(Records)[..pos] + old(Records)[pos + 1..]
    {
      if pos == 0 {
        EraseFirst();
        return;
      }
      var i, leak := 0, start;
      while i < pos
        invariant i < pos && leak == Nodes[i]
        decreases pos - i
      {
        if pos == i + 1 {
          EraseAfter(leak, i);
          break;
        }
        i, leak := i + 1, leak.next;
      }
    }

    /** add_mem_info */
    method AddMemInfo(memRef: Address, size: nat, file: string, line: int, now: string, allocOk: bool)
      requires Valid()
      modifies this, Nodes
      ensures Valid()
      ensures Records == if allocOk
                           then old(Records) + [MemInfo(memRef, size, line, Clip(file, FILE_SIZE), now)]
                           else old(Records)
      ensures forall i :: 0 <= i < |Nodes| ==> Nodes[i] in old(Nodes) || fresh(Nodes[i])
    {
      var info := MemInfo(memRef, size, line, Clip(file, FILE_SIZE), "");
      Append(info, now, allocOk);
    }

    /** remove_mem_info: the first record with this address goes, if there is one. */
    method RemoveMemInfo(memRef: Address)
      requires Valid()
      modifies this, Nodes
      ensures Valid()
      ensures Records == RemoveFirst(old(Records), memRef)
      ensures forall i :: 0 <= i < |Nodes| ==> Nodes[i] in old(Nodes)
    {
      var index: nat, leakInfo := 0, start;
      while leakInfo != null
        invariant index <= |Nodes|
        invariant leakInfo == if index < |Nodes| then Nodes[index] else null
        invariant forall j :: 0 <= j < index ==> Records[j].address != memRef
        decreases |Nodes| - index
      {
        if leakInfo.info.address == memRef {
          RemoveFirstAt(Records, memRef, index);
          Erase(index);
          return;
        }
        index, leakInfo := index + 1, leakInfo.next;
      }
      AbsentUnchanged(Records, memRef, 0, "", 0);
    }

    /** replace_mem_info: the first record with the old address is handed to the new one. */
    method ReplaceMemInfo(memOld: Address, memNew: Address, file: string, line: int)
      requires Valid()
      modifies this, Nodes
      ensures Valid()
      ensures Records == ReplaceFirst(old(Records), memOld, memNew, file, line) && Nodes == old(Nodes)
    {
      var index: nat, leakInfo := 0, start;
      while leakInfo != null
        invariant index <= |Nodes|
        invariant leakInfo == if index < |Nodes| then Nodes[index] else null
        invariant forall j :: 0 <= j < index ==> Records[j].address != memOld
        decreases |Nodes| - index
      {
        if leakInfo.info.address == memOld {
          ReplaceFirstAt(Records, memOld, memNew, file, line, index);
          leakInfo.info := leakInfo.info.(address := memNew, file := Clip(file, FILE_SIZE), line := line);
          Records := Records[index := leakInfo.info];
          return;
        }
        index, leakInfo := index + 1, leakInfo.next;
      }
      AbsentUnchanged(Records, memOld, memNew, file, line);
    }

    /** mem_get_cur_list */
    method GetCurList() returns (count: nat)
      requires Valid()
      ensures count == |Records|
    {
      count := 0;
      var leakInfo := start;
      while leakInfo != null
        invariant count <= |Nodes|
        invariant leakInfo == if count < |Nodes| then Nodes[count] else null
        decreases |Nodes| - count
      {
        count := count + 1;
        leakInfo := leakInfo.next;
      }
    }

    /** __ms_clear: frees every node once; only the head pointer is reset. */
    method Clear()
      requires Valid()
      modifies this
      ensures Valid() && Records == [] && Heap == {}
      ensures last == old(last)
    {
      var temp, leak := start, start;
      ghost var k := 0;
      while leak != null
        invariant k <= |Nodes|
        invariant leak == if k < |Nodes| then Nodes[k] else null
        invariant temp == leak
        invariant forall n :: n in Heap <==> n in Nodes[k..]
        invariant unchanged(`start) && unchanged(`last) && unchanged(`Nodes) && unchanged(`Records)
        decreases |Nodes| - k
      {
        leak := leak.next;
        assert temp in Heap;
        Heap := Heap - {temp};
        assert Nodes[k..] == [Nodes[k]] + Nodes[k + 1..];
        k := k + 1;
        temp := leak;
      }
      start := null;
      Nodes, Records := [], [];
    }
  }
}
