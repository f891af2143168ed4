/** The counted, singly linked list of thread_ex.c. */
module PositionalList {
  import opened Sequences

  /** void*, as an address. */
  type Ptr = nat
  const NULL: Ptr := 0

  /** ms_node_t */
  class Node {
    var next: Node?
    var element: Ptr

    constructor (element: Ptr, next: Node?)
      ensures this.element == element && this.next == next
    {
      this.element, this.next := element, next;
    }
  }

  /** ms_list_t */
  class List {
    var nbElt: int
    var node: Node?
    ghost var Nodes: seq<Node>
    ghost var Elements: seq<Ptr>
    /** The nodes handed to ms_free so far. */
    ghost var Freed: seq<Node>

    /** The chain that starts at node is Nodes, without repetition, and ends in null. Its nodes
        hold Elements. */
    ghost predicate Chain()
      reads this, Nodes
    {
      && node == (if Nodes == [] then null else Nodes[0])
      && (forall i {:trigger Nodes[i].next} :: 0 <= i < |Nodes| ==>
            Nodes[i].next == if i + 1 < |Nodes| then Nodes[i + 1] else null)
      && (forall i, j :: 0 <= i < j < |Nodes| ==> Nodes[i] != Nodes[j])
      && |Elements| == |Nodes|
      && (forall i :: 0 <= i < |Nodes| ==> Nodes[i].element == Elements[i])
    }

    ghost predicate Valid()
      reads this, Nodes
    {
      Chain() && nbElt == |Nodes|
    }

    /** ms_list_init, on storage of its own. */
    constructor ()
      ensures Valid() && Elements == [] && Freed == []
    {
      nbElt, node := 0, null;
      Nodes, Elements, Freed := [], [], [];
    }
  }

  /** The nodes a call that is handed li may change. */
  ghost function NodesOf(li: List?): seq<Node>
    reads li
  {
    if li == null then [] else li.Nodes
  }

  /** Where ms_list_add puts an element when it is asked for position pos in a list of n:
      -1 and everything from n on mean the end, and what lies below -1 the place after the head. */
  function InsertIndex(pos: int, n: nat): (i: nat)
    ensures i <= n
  {
    if pos == -1 || pos >= n || n == 0 then n
    else if pos < -1 then 1
    else pos
  }

  function Insert<T>(s: seq<T>, i: nat, x: T): (r: seq<T>)
    requires i <= |s|
    ensures |r| == |s| + 1
  {
    s[..i] + [x] + s[i..]
  }

  function Delete<T>(s: seq<T>, i: nat): (r: seq<T>)
    requires i < |s|
    ensures |r| == |s| - 1
  {
    s[..i] + s[i + 1..]
  }

  /** What that amounts to. */
  lemma InsertAsked<T>(s: seq<T>, pos: int, x: T)
    ensures Insert(s, InsertIndex(pos, |s|), x)
            == if pos == -1 || pos >= |s| || s == [] then s + [x]
               else if pos >= 0 then s[..pos] + [x] + s[pos..]
               else [s[0], x] + s[1..]
  {
  }

  lemma DeleteAt<T>(s: seq<T>, i: nat, k: nat)
    requires i < |s| && k < |s| - 1
    ensures Delete(s, i)[k] == if k < i then s[k] else s[k + 1]
  {
  }

  lemma InsertKeepsDistinct<T>(s: seq<T>, i: nat, x: T)
    requires i <= |s| && x !in s && forall j, k :: 0 <= j < k < |s| ==> s[j] != s[k]
    ensures forall j, k :: 0 <= j < k < |s| + 1 ==> Insert(s, i, x)[j] != Insert(s, i, x)[k]
  {
  }

  /** ms_list_size */
  method Size(li: List?) returns (r: int)
    requires li != null ==> li.Valid()
    ensures r == if li == null then -1 else |li.Elements|
  {
    if li != null {
      return li.nbElt;
    } else {
      return -1;
    }
  }

  /** ms_list_eol */
  method Eol(li: List?, i: int) returns (r: int)
    requires li != null ==> li.Valid()
    ensures r == if li == null then -1 else if i < |li.Elements| then 0 else 1
  {
    if li == null {
      return -1;
    }
    if i < li.nbElt {
      return 0;
    }
    return 1;
  }

  /** ms_list_get */
  method Get(li: List?, pos: int) returns (r: Ptr)
    requires li != null ==> li.Valid()
    ensures r == if li != null && 0 <= pos < |li.Elements| then li.Elements[pos] else NULL
  {
    if li == null {
      return NULL;
    }
    if pos < 0 || pos >= li.nbElt {
      return NULL;
    }
    var i, ntmp := 0, li.node;
    while pos > i
      invariant 0 <= i <= pos && ntmp == li.Nodes[i]
    {
      i, ntmp := i + 1, ntmp.next;
    }
    return ntmp.element;
  }

  /** ms_malloc of a node, and the filling of its fields; null when there is no memory. */
  method NewNode(el: Ptr, next: Node?, allocOk: bool) returns (n: Node?)
    ensures if allocOk then n != null && fresh(n) && n.element == el && n.next == next else n == null
  {
    if allocOk {
      n := new Node(el, next);
    } else {
      n := null;
    }
  }

  /** A new node behind ntmp. A failed allocation puts the old link back. */
  method LinkAfter(ntmp: Node, el: Ptr, allocOk: bool) returns (ok: bool)
    modifies ntmp
    ensures ok == allocOk && ntmp.element == old(ntmp.element)
    ensures if ok
            then ntmp.next != null && fresh(ntmp.next)
                 && ntmp.next.element == el && ntmp.next.next == old(ntmp.next)
            else ntmp.next == old(ntmp.next)
  {
    var nextnode := ntmp.next;
    ntmp.next := NewNode(el, nextnode, allocOk);
    ok := ntmp.next != null;
    if !ok {
      ntmp.next := nextnode;
    }
  }

  /** The end of ms_list_add: link a new node behind ntmp, which is at index k. */
  method InsertAfter(li: List, ntmp: Node, el: Ptr, allocOk: bool, ghost k: nat) returns (r: int)
    requires li.Valid()
    requires k < |li.Nodes| && ntmp == li.Nodes[k]
    modifies li, ntmp
    ensures li.Valid() && li.Freed == old(li.Freed)
    ensures if allocOk
            then r == |li.Nodes| && fresh(ntmp.next)
                 && li.Nodes == Insert(old(li.Nodes), k + 1, ntmp.next)
                 && li.Elements == Insert(old(li.Elements), k + 1, el)
            else r == -1 && li.Nodes == old(li.Nodes) && li.Elements == old(li.Elements)
  {
    var ok := LinkAfter(ntmp, el, allocOk);
    if !ok {
      return -1;
    }
    li.nbElt := li.nbElt + 1;
    InsertKeepsDistinct(li.Nodes, k + 1, ntmp.next);
    li.Nodes, li.Elements := Insert(li.Nodes, k + 1, ntmp.next), Insert(li.Elements, k + 1, el);
    return li.nbElt;
  }

  /** The branches of ms_list_add that change the head. */
  method InsertFirst(li: List, el: Ptr, allocOk: bool) returns (r: int)
    requires li.Valid()
    modifies li
    ensures li.Valid() && li.Freed == old(li.Freed)
    ensures if allocOk
            then r == |li.Nodes| && fresh(li.node)
                 && li.Nodes == Insert(old(li.Nodes), 0, li.node)
                 && li.Elements == Insert(old(li.Elements), 0, el)
            else r == -1 && li.Nodes == old(li.Nodes) && li.Elements == old(li.Elements)
  {
    var ntmp := li.node;
    li.node := NewNode(el, ntmp, allocOk);
    if li.node == null {
      li.node := ntmp;
      return -1;
    }
    li.nbElt := li.nbElt + 1;
    li.Nodes, li.Elements := Insert(li.Nodes, 0, li.node), Insert(li.Elements, 0, el);
    return li.nbElt;
  }

  /** ms_list_add on a list that is there, for every position. allocOk says whether the node
      could be allocated. */
  method AddTo(li: List, el: Ptr, pos: int, allocOk: bool) returns (r: int)
    requires li.Valid()
    modifies li, li.Nodes
    ensures li.Valid() && li.Freed == old(li.Freed)
    ensures forall i :: 0 <= i < |li.Nodes| ==> li.Nodes[i] in old(li.Nodes) || fresh(li.Nodes[i])
    ensures !allocOk ==> r == -1 && li.Nodes == old(li.Nodes) && li.Elements == old(li.Elements)
    ensures allocOk ==>
              var i := InsertIndex(pos, |old(li.Nodes)|);
              && r == |old(li.Nodes)| + 1 == |li.Nodes|
              && fresh(li.Nodes[i]) && li.Nodes == Insert(old(li.Nodes), i, li.Nodes[i])
              && li.Elements == Insert(old(li.Elements), i, el)
  {
    var pos := pos;
    if li.nbElt == 0 {
      r := InsertFirst(li, el, allocOk);
      return;
    }
    if pos == -1 || pos >= li.nbElt {
      pos := li.nbElt;
    }
    var ntmp := li.node;
    if pos == 0 {
      r := InsertFirst(li, el, allocOk);
      return;
    }
    var i := 0;
    while pos > i + 1
      invariant 0 <= i < |li.Nodes| && ntmp == li.Nodes[i] && (i == 0 || i < pos)
    {
      i, ntmp := i + 1, ntmp.next;
    }
    r := InsertAfter(li, ntmp, el, allocOk, i);
  }

  /** ms_list_add */
  method Add(li: List?, el: Ptr, pos: int, allocOk: bool) returns (r: int)
    requires li != null ==> li.Valid()
    modifies li, NodesOf(li)
    ensures li == null || !allocOk ==> r == -1
    ensures li != null ==> li.Valid() && li.Freed == old(li.Freed)
    ensures li != null ==> forall i :: 0 <= i < |li.Nodes| ==> li.Nodes[i] in old(li.Nodes) || fresh(li.Nodes[i])
    ensures li != null && !allocOk ==> li.Elements == old(li.Elements)
    ensures li != null && allocOk ==>
              && r == |li.Elements|
              && li.Elements == Insert(old(li.Elements), InsertIndex(pos, |old(li.Elements)|), el)
  {
    if li == null {
      return -1;
    }
    r := AddTo(li, el, pos, allocOk);
  }

  /** The unlinking at the end of ms_list_remove: drop the node after ntmp, which is at index k. */
  method RemoveAfter(li: List, ntmp: Node, ghost k: nat)
    requires li.Valid()
    requires k + 1 < |li.Nodes| && ntmp == li.Nodes[k]
    modifies li, ntmp
    ensures li.Valid()
    ensures li.Nodes == Delete(old(li.Nodes), k + 1)
    ensures li.Elements == Delete(old(li.Elements), k + 1)
    ensures li.Freed == old(li.Freed) + [old(li.Nodes)[k + 1]]
  {
    var remnode := ntmp.next;
    ntmp.next := ntmp.next.next;
    li.Freed := li.Freed + [remnode];
    li.nbElt := li.nbElt - 1;
    li.Nodes, li.Elements := Delete(li.Nodes, k + 1), Delete(li.Elements, k + 1);
  }

  /** ms_list_remove */
  method Remove(li: List?, pos: int) returns (r: int)
    requires li != null ==> li.Valid()
    modifies li, NodesOf(li)
    ensures li != null ==> li.Valid()
    ensures li != null && 0 <= pos < |old(li.Nodes)| ==>
              && r == |li.Nodes|
              && li.Nodes == Delete(old(li.Nodes), pos)
              && li.Elements == Delete(old(li.Elements), pos)
              && li.Freed == old(li.Freed) + [old(li.Nodes)[pos]]
    ensures li == null || !(0 <= pos < |old(li.Nodes)|) ==> r == -1
    ensures li != null && !(0 <= pos < |old(li.Nodes)|) ==>
              li.Nodes == old(li.Nodes) && li.Elements == old(li.Elements) && li.Freed == old(li.Freed)
  {
    if li == null {
      return -1;
    }
    if pos < 0 || pos >= li.nbElt {
      return -1;
    }
    var ntmp := li.node;
    if pos == 0 {
      li.node := ntmp.next;
      li.nbElt := li.nbElt - 1;
      li.Freed := li.Freed + [ntmp];
      li.Nodes, li.Elements := Delete(li.Nodes, 0), Delete(li.Elements, 0);
      return li.nbElt;
    }
    var i := 0;
    while pos > i + 1
      invariant 0 <= i < pos && ntmp == li.Nodes[i]
    {
      i, ntmp := i + 1, ntmp.next;
    }
    RemoveAfter(li, ntmp, i);
    return li.nbElt;
  }

  /** One round of the freeing loops: read the element at the front, then drop its node. */
  method TakeFirst(li: List, pos: int) returns (element: Ptr)
    requires li.Valid() && li.Nodes != [] && pos == 0
    modifies li, li.Nodes
    ensures li.Valid() && li.Nodes == old(li.Nodes)[1..]
    ensures li.Freed == old(li.Freed) + [old(li.Nodes)[0]]
    ensures element == old(li.Elements)[0] && li.Elements == old(li.Elements)[1..]
  {
    element := Get(li, pos);
    var _ := Remove(li, pos);
  }

  /** The loop of ms_list_special_free. freed is the list of the arguments of free_func. */
  method FreeAll(li: List, callFree: bool) returns (freed: seq<Ptr>)
    requires li.Valid()
    modifies li, li.Nodes
    ensures freed == if callFree then old(li.Elements) else []
    ensures li.Valid() && li.Elements == []
    ensures li.Freed == old(li.Freed) + old(li.Nodes)
  {
    freed := [];
    var pos := 0;
    var eol := Eol(li, pos);
    ghost var nodes, elements, k := li.Nodes, li.Elements, 0;
    while eol == 0
      invariant li.Valid() && k <= |nodes|
      invariant li.Nodes == nodes[k..] && li.Elements == elements[k..]
      invariant freed == if callFree then elements[..k] else []
      invariant li.Freed == old(li.Freed) + nodes[..k]
      invariant eol == if k < |nodes| then 0 else 1
      decreases |nodes| - k
    {
      OneOn(nodes, k);
      OneOn(elements, k);
      ConcatAssoc(old(li.Freed), nodes[..k], [nodes[k]]);
      var element := TakeFirst(li, pos);
      if callFree {
        freed := freed + [element];
      }
      k := k + 1;
      eol := Eol(li, pos);
    }
  }

  lemma OneOn<T>(s: seq<T>, k: nat)
    requires k < |s|
    ensures s[k..][0] == s[k] && s[k..][1..] == s[k + 1..] && s[..k] + [s[k]] == s[..k + 1]
  {
  }

  /** ms_list_special_free. listFreed says whether the list itself was freed, which comes last: all of
      its nodes have been freed by then. */
  method SpecialFree(li: List?, callFree: bool) returns (freed: seq<Ptr>, listFreed: bool)
    requires li != null ==> li.Valid()
    modifies li, NodesOf(li)
    ensures freed == if li != null && callFree then old(li.Elements) else []
    ensures listFreed == (li != null)
    ensures li != null ==> li.Valid() && li.Elements == [] && li.Freed == old(li.Freed) + old(li.Nodes)
  {
    if li == null {
      return [], false;
    }
    freed := FreeAll(li, callFree);
    listFreed := true;
  }
}
