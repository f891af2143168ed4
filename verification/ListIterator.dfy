/** The iterator of thread_ex.c. It removes in place through prev, the address of the link that
    leads to the current node: the head field of the list or the next field of a node. */
module ListIterator {
  import opened PositionalList

  /** ms_node_t** */
  datatype Link = HeadOf(list: List) | NextOf(owner: Node)

  function Deref(link: Link): Node?
    reads match link case HeadOf(l) => {l as object} case NextOf(n) => {n as object}
  {
    match link
    case HeadOf(l) => l.node
    case NextOf(n) => n.next
  }

  /** The link that leads to index k of the list. */
  ghost function LinkAt(li: List, k: nat): Link
    requires k <= |li.Nodes|
    reads li
  {
    if k == 0 then HeadOf(li) else NextOf(li.Nodes[k - 1])
  }

  /** ms_list_iterator_t */
  class Iter {
    var actual: Node?
    var prev: Link
    var li: List
    var pos: int
    /** The index prev leads to. */
    ghost var Base: nat

    constructor (li: List)
      ensures actual == null && this.li == li
    {
      actual, prev, this.li, pos := null, HeadOf(li), li, 0;
      Base := 0;
    }

    /** The iterator stands at index pos, or past the end; prev is a link at or before it. */
    ghost predicate At()
      reads this, li, li.Nodes
    {
      && 0 <= pos <= |li.Nodes|
      && actual == (if pos < |li.Nodes| then li.Nodes[pos] else null)
      && Base <= pos && prev == LinkAt(li, Base)
    }

    ghost predicate InSync()
      reads this, li, li.Nodes
    {
      At() && Base == pos
    }
  }

  /** In a list, prev is the link to the current node just when it is the one at index pos. */
  lemma InSyncIff(it: Iter)
    requires it.li.Valid() && it.At()
    ensures it.InSync() <==> Deref(it.prev) == it.actual
  {
    var b := it.Base;
    assert Deref(it.prev) == if b < |it.li.Nodes| then it.li.Nodes[b] else null;
  }

  /** ms_list_iterator_has_elem */
  predicate HasElem(it: Iter)
    reads it, it.li
  {
    it.actual != null && it.pos < it.li.nbElt
  }

  /** ms_list_get_first */
  method GetFirst(li: List, it: Iter) returns (r: Ptr)
    requires li.Valid()
    modifies it
    ensures it.actual == li.node
    ensures r == if li.Elements == [] then NULL else li.Elements[0]
    ensures if li.Elements == [] then it.prev == old(it.prev) && it.li == old(it.li) && it.pos == old(it.pos)
            else it.li == li && it.InSync() && it.pos == 0
  {
    if 0 >= li.nbElt {
      it.actual := null;
      return NULL;
    }
    it.actual := li.node;
    it.prev := HeadOf(li);
    it.li := li;
    it.pos := 0;
    it.Base := 0;
    return li.node.element;
  }

  /** ms_list_get_next. Whatever prev was, it is right afterwards. */
  method GetNext(it: Iter) returns (r: Ptr)
    requires it.li.Valid() && it.At() && it.actual != null
    modifies it
    ensures it.li == old(it.li) && it.pos == old(it.pos) + 1 && it.InSync()
    ensures r == if it.pos < |it.li.Elements| then it.li.Elements[it.pos] else NULL
  {
    it.prev := NextOf(it.actual);
    it.actual := it.actual.next;
    it.pos := it.pos + 1;
    it.Base := it.pos;
    if HasElem(it) {
      return it.actual.element;
    }
    it.actual := null;
    return NULL;
  }

  function Cut<T>(s: seq<T>, b: nat, k: nat): (r: seq<T>)
    requires b <= k < |s|
    ensures |r| == |s| - (k + 1 - b)
  {
    s[..b] + s[k + 1..]
  }

  /** All nodes of a list that is cut: those that stay, those freed, and the ones before the last. */
  lemma CutAccounts<T>(nodes: seq<T>, freed: seq<T>, b: nat, k: nat)
    requires b <= k < |nodes|
    ensures multiset(nodes) + multiset(freed)
            == multiset(Cut(nodes, b, k)) + multiset(freed + [nodes[k]]) + multiset(nodes[b..k])
  {
    assert nodes == nodes[..b] + (nodes[b..k] + ([nodes[k]] + nodes[k + 1..]));
  }

  /** The nodes that are in the list or were freed. */
  ghost function Accounts(li: List): multiset<Node>
    reads li
  {
    multiset(li.Nodes) + multiset(li.Freed)
  }

  /** The assignment *prev = actual->next, where prev leads to index b and the current node is at
      index k. The nodes from b to k leave the chain. */
  method Splice(li: List, prev: Link, actual: Node, ghost b: nat, ghost k: nat)
    requires li.Chain()
    requires b <= k < |li.Nodes| && prev == LinkAt(li, b) && actual == li.Nodes[k]
    modifies li, li.Nodes
    ensures li.Chain() && li.nbElt == old(li.nbElt) && li.Freed == old(li.Freed)
    ensures li.Nodes == Cut(old(li.Nodes), b, k)
    ensures li.Elements == Cut(old(li.Elements), b, k)
    ensures Deref(prev) == if b < |li.Nodes| then li.Nodes[b] else null
  {
    match prev {
      case HeadOf(l) => l.node := actual.next;
      case NextOf(n) =>
        assert n == li.Nodes[b - 1];
        n.next := actual.next;
    }
    li.Nodes, li.Elements := Cut(li.Nodes, b, k), Cut(li.Elements, b, k);
  }

  /** The first half of ms_list_iterator_remove. */
  method RemoveCurrent(it: Iter)
    requires it.li.Valid() && it.At() && it.actual != null
    modifies it`actual, it.li, it.li.Nodes
    ensures it.li.Chain() && it.li.nbElt == |old(it.li.Nodes)| - 1
    ensures it.li.Nodes == Cut(old(it.li.Nodes), it.Base, it.pos)
    ensures it.li.Elements == Cut(old(it.li.Elements), it.Base, it.pos)
    ensures it.li.Freed == old(it.li.Freed) + [old(it.li.Nodes)[it.pos]]
    ensures it.prev == LinkAt(it.li, it.Base)
    ensures it.actual == if it.Base < |it.li.Nodes| then it.li.Nodes[it.Base] else null
  {
    it.li.nbElt := it.li.nbElt - 1;
    Splice(it.li, it.prev, it.actual, it.Base, it.pos);
    it.li.Freed := it.li.Freed + [it.actual];
    it.actual := Deref(it.prev);
  }

  /** ms_list_iterator_remove. It takes out the nodes from index Base to index pos, frees the last of
      them, and counts one: the list stays a list exactly when prev was the link to the current
      node. The nodes from Base to pos - 1 are lost, neither in the list nor freed. */
  method IteratorRemove(it: Iter) returns (r: Ptr)
    requires it.li.Valid() && (it.actual != null ==> it.At())
    modifies it`actual, it.li, it.li.Nodes
    ensures old(it.actual) == null ==>
              && r == NULL && it.actual == null
              && it.li.Valid() && it.li.Nodes == old(it.li.Nodes) && it.li.Elements == old(it.li.Elements)
              && it.li.Freed == old(it.li.Freed)
    ensures old(it.actual) != null ==>
              && it.li.Chain() && it.li.nbElt == |old(it.li.Nodes)| - 1
              && it.li.Nodes == Cut(old(it.li.Nodes), it.Base, it.pos)
              && it.li.Freed == old(it.li.Freed) + [old(it.actual)]
              && old(Accounts(it.li)) == Accounts(it.li) + multiset(old(it.li.Nodes)[it.Base..it.pos])
              && (it.li.Valid() <==> old(it.InSync()))
    ensures r == if it.actual != null && it.pos < it.li.nbElt then it.actual.element else NULL
    ensures old(it.actual) != null && old(it.InSync()) ==>
              && it.InSync() && Accounts(it.li) == old(Accounts(it.li))
              && it.li.Nodes == Delete(old(it.li.Nodes), it.pos)
              && it.li.Elements == Delete(old(it.li.Elements), it.pos)
              && r == if it.pos < |it.li.Elements| then it.li.Elements[it.pos] else NULL
  {
    if HasElem(it) {
      ghost var nodes, freed := it.li.Nodes, it.li.Freed;
      RemoveCurrent(it);
      CutAccounts(nodes, freed, it.Base, it.pos);
    }
    if HasElem(it) {
      return it.actual.element;
    }
    return NULL;
  }

  /** The insertion in ms_list_iterator_add, before the index is adjusted: the current node is
      now at index c, and prev, which leads to the same place in the chain as before, to index b. */
  method InsertUnder(it: Iter, element: Ptr, pos: int, allocOk: bool)
    returns (added: int, ghost b: nat, ghost c: nat)
    requires it.li.Valid() && it.At()
    modifies it.li, it.li.Nodes
    ensures it.li.Valid() && it.li.Freed == old(it.li.Freed)
    ensures forall i :: 0 <= i < |it.li.Nodes| ==> it.li.Nodes[i] in old(it.li.Nodes) || fresh(it.li.Nodes[i])
    ensures !allocOk ==> added == -1 && it.At() && it.li.Elements == old(it.li.Elements)
    ensures allocOk ==>
              var i := InsertIndex(pos, |old(it.li.Nodes)|);
              && added == |it.li.Nodes| == |old(it.li.Nodes)| + 1
              && it.li.Elements == Insert(old(it.li.Elements), i, element)
              && b == (if i < it.Base then it.Base + 1 else it.Base) <= |it.li.Nodes|
              && c == (if i <= it.pos then it.pos + 1 else it.pos) <= |it.li.Nodes|
              && it.actual == (if c < |it.li.Nodes| then it.li.Nodes[c] else null)
              && it.prev == LinkAt(it.li, b)
  {
    ghost var i := InsertIndex(pos, |it.li.Nodes|);
    added := AddTo(it.li, element, pos, allocOk);
    b := if i < it.Base then it.Base + 1 else it.Base;
    c := if i <= it.pos then it.pos + 1 else it.pos;
  }

  /** The last part of ms_list_iterator_add. The index is right just when it is c, where the current
      node is. */
  method Adjust(it: Iter, pos: int, ghost b: nat, ghost c: nat)
    requires it.li.Valid() && it.pos >= 0 && b <= c <= |it.li.Nodes| && it.prev == LinkAt(it.li, b)
    requires it.actual == if c < |it.li.Nodes| then it.li.Nodes[c] else null
    modifies it`pos, it`Base
    ensures it.pos == (if pos <= old(it.pos) then old(it.pos) + 1 else old(it.pos)) && it.Base == b
    ensures it.At() <==> it.pos == c
  {
    it.Base := b;
    if pos <= it.pos {
      it.pos := it.pos + 1;
    }
  }

  /** ms_list_iterator_add. The index stays right for every position except the ones below -1
      asked for at the first element; prev stays right unless the element went in at pos, and
      once it is wrong no insertion makes it right again. */
  method IteratorAdd(it: Iter, element: Ptr, pos: int, allocOk: bool) returns (r: int)
    requires it.li.Valid() && it.At()
    modifies it`pos, it`Base, it.li, it.li.Nodes
    ensures it.li.Valid() && it.li.Freed == old(it.li.Freed)
    ensures forall i :: 0 <= i < |it.li.Nodes| ==> it.li.Nodes[i] in old(it.li.Nodes) || fresh(it.li.Nodes[i])
    ensures !allocOk ==>
              && r == -1 && it.At() && it.pos == old(it.pos) && it.Base == old(it.Base)
              && it.li.Elements == old(it.li.Elements)
    ensures allocOk ==>
              var i := InsertIndex(pos, |old(it.li.Nodes)|);
              && r == |it.li.Elements|
              && it.li.Elements == Insert(old(it.li.Elements), i, element)
              && (it.At() <==> !(pos < -1 && old(it.pos) == 0 && i == 1))
              && (it.InSync() <==> it.At() && old(it.InSync()) && i != old(it.pos))
              && (it.At() ==> it.pos == if i <= old(it.pos) then old(it.pos) + 1 else old(it.pos))
  {
    var pos := pos;
    if pos == -1 || pos >= it.li.nbElt {
      pos := it.li.nbElt;
    }
    var added;
    ghost var b, c;
    added, b, c := InsertUnder(it, element, pos, allocOk);
    if added < 0 {
      return -1;
    }
    Adjust(it, pos, b, c);
    return it.li.nbElt;
  }

  /** A list of one element, an iterator on it, and another element inserted before. */
  method AddUnder(a: Ptr, b: Ptr) returns (li: List, it: Iter)
    ensures fresh(li) && fresh(it) && it.li == li && li.Freed == []
    ensures li.Valid() && it.At() && it.actual != null && li.Elements == [b, a] && it.pos == 1 && it.Base == 0
    ensures forall i :: 0 <= i < |li.Nodes| ==> fresh(li.Nodes[i])
  {
    li := new List();
    var _ := Add(li, a, -1, true);
    it := new Iter(li);
    var _ := GetFirst(li, it);
    var _ := IteratorAdd(it, b, 0, true);
  }

  /** Removing then: of the two nodes none is left in the list, one was freed, and the count is 1. */
  method RemoveAfterAdd(a: Ptr, b: Ptr) returns (li: List)
    ensures fresh(li) && li.Chain() && li.Nodes == [] && li.nbElt == 1 && |li.Freed| == 1
  {
    var it;
    li, it := AddUnder(a, b);
    var _ := IteratorRemove(it);
  }

  /** The elements that do not satisfy p, in order. */
  function Without(s: seq<Ptr>, p: Ptr -> bool): seq<Ptr> {
    if s == [] then []
    else if p(s[0]) then Without(s[1..], p)
    else [s[0]] + Without(s[1..], p)
  }

  /** What a traversal that has come to index k will leave. */
  function Outcome(s: seq<Ptr>, k: nat, p: Ptr -> bool): seq<Ptr>
    requires k <= |s|
  {
    s[..k] + Without(s[k..], p)
  }

  /** A removal in step, as a traversal sees it. */
  method Drop(it: Iter)
    requires it.li.Valid() && it.InSync() && it.actual != null
    modifies it`actual, it.li, it.li.Nodes
    ensures it.li.Valid() && it.InSync()
    ensures |it.li.Nodes| == |old(it.li.Nodes)| - 1
    ensures forall i :: 0 <= i < |it.li.Nodes| ==> it.li.Nodes[i] in old(it.li.Nodes)
    ensures it.li.Elements == Delete(old(it.li.Elements), it.pos)
    ensures Accounts(it.li) == old(Accounts(it.li))
  {
    DeleteKeeps(it.li.Nodes, it.pos);
    var _ := IteratorRemove(it);
  }

  /** One round of a traversal that removes the elements p picks. */
  method Visit(it: Iter, p: Ptr -> bool)
    requires it.li.Valid() && it.InSync() && it.actual != null
    modifies it, it.li, it.li.Nodes
    ensures it.li == old(it.li) && it.li.Valid() && it.InSync()
    ensures forall i :: 0 <= i < |it.li.Nodes| ==> it.li.Nodes[i] in old(it.li.Nodes)
    ensures |it.li.Nodes| - it.pos < |old(it.li.Nodes)| - old(it.pos)
    ensures Outcome(it.li.Elements, it.pos, p) == old(Outcome(it.li.Elements, it.pos, p))
    ensures Accounts(it.li) == old(Accounts(it.li))
  {
    WithoutStep(it.li.Elements, it.pos, p);
    if p(it.actual.element) {
      Drop(it);
    } else {
      var _ := GetNext(it);
    }
  }

  lemma DeleteKeeps<T>(s: seq<T>, k: nat)
    requires k < |s|
    ensures forall i :: 0 <= i < |Delete(s, k)| ==> Delete(s, k)[i] in s
  {
  }

  /** Removing an element p picks, or passing one it does not, changes nothing about the outcome. */
  lemma WithoutStep(s: seq<Ptr>, k: nat, p: Ptr -> bool)
    requires k < |s|
    ensures p(s[k]) ==> Outcome(Delete(s, k), k, p) == Outcome(s, k, p)
    ensures !p(s[k]) ==> Outcome(s, k + 1, p) == Outcome(s, k, p)
  {
    assert s[k..][1..] == s[k + 1..];
    assert Delete(s, k)[k..] == s[k + 1..];
    assert Delete(s, k)[..k] == s[..k];
    assert s[..k + 1] == s[..k] + [s[k]];
  }

  /** What is left: no element p picks, every other one as often as it was, and in the order they
      were in. */
  lemma {:induction false} WithoutIs(s: seq<Ptr>, p: Ptr -> bool, x: Ptr)
    ensures multiset(Without(s, p))[x] == if p(x) then 0 else multiset(s)[x]
  {
    if s == [] {
    } else {
      WithoutIs(s[1..], p, x);
      assert s == [s[0]] + s[1..];
    }
  }

  lemma {:induction false} WithoutOrder(s: seq<Ptr>, p: Ptr -> bool, j: nat)
    requires j < |s| && !p(s[j])
    ensures var k := |Without(s[..j], p)|; k < |Without(s, p)| && Without(s, p)[k] == s[j]
  {
    if j == 0 {
      assert s[..0] == [];
    } else {
      WithoutOrder(s[1..], p, j - 1);
      assert s[..j][1..] == s[1..][..j - 1];
    }
  }

  lemma OutcomeEnds(s: seq<Ptr>, p: Ptr -> bool)
    ensures Outcome(s, 0, p) == Without(s, p) && Outcome(s, |s|, p) == s
  {
    assert s[..0] == [] && s[0..] == s && s[|s|..] == [] && s[..|s|] == s;
  }

  /** The traversal the iterator is for: visit every element once, remove the ones p picks. Their
      nodes are freed, each once. */
  method RemoveWhere(li: List, p: Ptr -> bool)
    requires li.Valid()
    modifies li, li.Nodes
    ensures li.Valid()
    ensures li.Elements == Without(old(li.Elements), p)
    ensures Accounts(li) == old(Accounts(li))
    ensures forall i :: 0 <= i < |li.Nodes| ==> li.Nodes[i] in old(li.Nodes)
  {
    ghost var outcome, accounts := Without(li.Elements, p), Accounts(li);
    var it := new Iter(li);
    OutcomeEnds(li.Elements, p);
    var _ := GetFirst(li, it);
    if it.actual == null {
      return;
    }
    while HasElem(it)
      invariant it.li == li && li.Valid() && it.InSync()
      invariant forall i :: 0 <= i < |li.Nodes| ==> li.Nodes[i] in old(li.Nodes)
      invariant Outcome(li.Elements, it.pos, p) == outcome && Accounts(li) == accounts
      decreases |li.Nodes| - it.pos
    {
      Visit(it, p);
    }
    OutcomeEnds(li.Elements, p);
  }
}
