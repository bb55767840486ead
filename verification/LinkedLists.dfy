/** The intrusive doubly linked list of the kernel (source/db/LinkedList.cc, LinkedListItem.hh).
    A list is specified by the sequence `Nodes` of its items, head first. Items carry a pointer to
    the list that hosts them, so an insertion first takes the item out of whatever list it is in. */
module LinkedLists {
  import opened Collections

  const OK: int := 0
  const ERROR: int := -1000
  const ELEMENT_NOT_IN_DATABASE: int := -501

  /** `size` is an 8-bit counter. */
  const SIZE_RANGE: nat := 256

  /** The address of a stored object; a list only keeps and compares it. */
  type ListItem = int

  /** `s` without the first occurrence of `x`; `s` itself when `x` does not occur. */
  function Without<X(==)>(s: seq<X>, x: X): (r: seq<X>)
  {
    if s == [] then []
    else if s[0] == x then s[1..]
    else [s[0]] + Without(s[1..], x)
  }

  ghost predicate Distinct<X>(s: seq<X>) {
    forall i, j :: 0 <= i < j < |s| ==> s[i] != s[j]
  }

  lemma {:induction false} WithoutAt<X>(s: seq<X>, k: nat)
    requires k < |s| && Distinct(s)
    ensures Without(s, s[k]) == RemoveAt(s, k)
  {
    if k > 0 {
      assert s[1..][k - 1] == s[k];
      WithoutAt(s[1..], k - 1);
      assert s[..k] + s[k + 1..] == [s[0]] + (s[1..][..k - 1] + s[1..][k..]);
    }
  }

  lemma {:induction false} WithoutAbsent<X>(s: seq<X>, x: X)
    requires x !in s
    ensures Without(s, x) == s
  {
    if s != [] {
      WithoutAbsent(s[1..], x);
    }
  }

  lemma RemoveAtElements<X>(s: seq<X>, k: nat)
    requires k < |s| && Distinct(s)
    ensures Distinct(RemoveAt(s, k))
    ensures forall y :: y in RemoveAt(s, k) <==> y in s && y != s[k]
  {
    var r := RemoveAt(s, k);
    assert forall i :: 0 <= i < |s| && i != k ==> s[i] == r[if i < k then i else i - 1];
  }

  /** Where the element at `i` was before element `k` moved to the front. */
  function FrontSource(k: nat, i: nat): nat {
    if i == 0 then k else if i <= k then i - 1 else i
  }

  lemma FrontAt<X>(s: seq<X>, k: nat, i: nat)
    requires k < |s| && i < |s|
    ensures |[s[k]] + RemoveAt(s, k)| == |s| && ([s[k]] + RemoveAt(s, k))[i] == s[FrontSource(k, i)]
  {
  }

  /** Taking one item out of a duplicate-free sequence loses exactly that item. */
  lemma WithoutElements<X>(s: seq<X>, x: X)
    requires Distinct(s)
    ensures Distinct(Without(s, x))
    ensures forall y :: y in Without(s, x) <==> y in s && y != x
  {
    if x in s {
      var k :| 0 <= k < |s| && s[k] == x;
      WithoutAt(s, k);
      RemoveAtElements(s, k);
    } else {
      WithoutAbsent(s, x);
    }
  }

  lemma InsertAtElements<X>(s: seq<X>, k: nat, x: X)
    requires k <= |s| && Distinct(s) && x !in s
    ensures Distinct(InsertAt(s, k, x))
    ensures forall y :: y in InsertAt(s, k, x) <==> y == x || y in s
  {
    var r := InsertAt(s, k, x);
    assert forall i :: 0 <= i < |s| ==> s[i] == r[if i < k then i else i + 1];
    assert r[k] == x;
  }

  /** The operations on a world of lists `L` holding items `X`. */
  datatype Op<L, X> =
    | Take(item: X)
    | ToTail(item: X, list: L)
    | ToHead(item: X, list: L)
    | After(item: X, list: L, existing: X)
    | Before(item: X, list: L, existing: X)

  /** An operation next to an existing item needs that other item in the list. */
  predicate Legal<L(==), X(==)>(op: Op<L, X>, l: L, s: seq<X>) {
    (op.After? || op.Before?) && op.list == l ==> op.existing in s && op.existing != op.item
  }

  /** The position at which an operation that is `Legal` for a list puts its item into the rest `r` of it. */
  function Place<L, X(==)>(op: Op<L, X>, r: seq<X>): (k: nat)
    ensures k <= |r|
  {
    match op
    case Take(_) => 0
    case ToTail(_, _) => |r|
    case ToHead(_, _) => 0
    case After(_, _, e) => if e in r then IndexOf(r, e) + 1 else 0
    case Before(_, _, e) => if e in r then IndexOf(r, e) else 0
  }

  lemma NextTo<L, X>(op: Op<L, X>, s: seq<X>)
    requires Distinct(s) && (op.After? || op.Before?) && op.existing in s && op.existing != op.item
    ensures var r := Without(s, op.item);
            var k := Place(op, r);
            if op.After? then k > 0 && r[k - 1] == op.existing else k < |r| && r[k] == op.existing
  {
    WithoutElements(s, op.item);
  }

  /** What an operation makes of list `l` with contents `s`: the item leaves, and arrives where it is sent. */
  function Effect<L(==), X(==)>(op: Op<L, X>, l: L, s: seq<X>): seq<X> {
    var r := Without(s, op.item);
    if op.Take? || op.list != l then r else InsertAt(r, Place(op, r), op.item)
  }

  /** `b` stands right behind `a`. */
  predicate Follows<X(==)>(s: seq<X>, a: X, b: X) {
    exists i :: 0 <= i < |s| - 1 && s[i] == a && s[i + 1] == b
  }

  /** Where an operation puts its item: last, first, right behind the existing one or right in front of it. */
  lemma EffectPlaces<L, X>(op: Op<L, X>, l: L, s: seq<X>)
    requires Distinct(s) && Legal(op, l, s) && !op.Take? && op.list == l
    ensures var t := Effect(op, l, s);
            match op
            case Take(_) => true
            case ToTail(x, _) => t != [] && t[|t| - 1] == x
            case ToHead(x, _) => t != [] && t[0] == x
            case After(x, _, e) => Follows(t, e, x)
            case Before(x, _, e) => Follows(t, x, e)
  {
    var r, t := Without(s, op.item), Effect(op, l, s);
    var k := Place(op, r);
    if op.After? || op.Before? {
      NextTo(op, s);
      if op.After? {
        assert t[k - 1] == op.existing && t[k - 1 + 1] == op.item;
      } else {
        assert t[k] == op.item && t[k + 1] == op.existing;
      }
    }
  }

  function Run<L(==), X(==)>(ops: seq<Op<L, X>>, l: L, s: seq<X>): seq<X> {
    if ops == [] then s else Run(ops[1..], l, Effect(ops[0], l, s))
  }

  predicate LegalRun<L(==), X(==)>(ops: seq<Op<L, X>>, l: L, s: seq<X>) {
    ops != [] ==> Legal(ops[0], l, s) && LegalRun(ops[1..], l, Effect(ops[0], l, s))
  }

  /** Whether the last operation about `x`, or else the start, puts `x` into list `l`. */
  predicate LastSentTo<L(==), X(==)>(ops: seq<Op<L, X>>, l: L, x: X, start: bool) {
    if ops == [] then start
    else LastSentTo(ops[1..], l, x, if ops[0].item != x then start else !ops[0].Take? && ops[0].list == l)
  }

  lemma EffectElements<L, X>(op: Op<L, X>, l: L, s: seq<X>)
    requires Distinct(s) && Legal(op, l, s)
    ensures Distinct(Effect(op, l, s))
    ensures forall x :: x in Effect(op, l, s) <==>
              if x == op.item then !op.Take? && op.list == l else x in s
  {
    WithoutElements(s, op.item);
    var r := Without(s, op.item);
    if !op.Take? && op.list == l {
      InsertAtElements(r, Place(op, r), op.item);
    }
  }

  /** Over any run an item is in exactly the list it was last sent to, once: nothing is lost or duplicated. */
  lemma {:induction false} RunPlacesItems<L, X>(ops: seq<Op<L, X>>, l: L, s: seq<X>)
    requires Distinct(s) && LegalRun(ops, l, s)
    ensures Distinct(Run(ops, l, s))
    ensures forall x :: x in Run(ops, l, s) <==> LastSentTo(ops, l, x, x in s)
  {
    if ops != [] {
      EffectElements(ops[0], l, s);
      RunPlacesItems(ops[1..], l, Effect(ops[0], l, s));
    }
  }

  function Only<X(==)>(s: seq<X>, keep: set<X>): seq<X> {
    if s == [] then [] else (if s[0] in keep then [s[0]] else []) + Only(s[1..], keep)
  }

  lemma {:induction false} OnlyWithout<X>(s: seq<X>, x: X, keep: set<X>)
    requires x !in keep
    ensures Only(Without(s, x), keep) == Only(s, keep)
  {
    if s != [] && s[0] != x {
      OnlyWithout(s[1..], x, keep);
      assert Without(s, x)[1..] == Without(s[1..], x);
    }
  }

  lemma {:induction false} OnlyInsertAt<X>(s: seq<X>, k: nat, x: X, keep: set<X>)
    requires k <= |s| && x !in keep
    ensures Only(InsertAt(s, k, x), keep) == Only(s, keep)
  {
    if k == 0 {
      assert InsertAt(s, 0, x)[1..] == s;
    } else {
      OnlyInsertAt(s[1..], k - 1, x, keep);
      assert InsertAt(s, k, x)[1..] == InsertAt(s[1..], k - 1, x);
    }
  }

  lemma EffectKeepsOthers<L, X>(op: Op<L, X>, l: L, s: seq<X>, keep: set<X>)
    requires op.item !in keep
    ensures Only(Effect(op, l, s), keep) == Only(s, keep)
  {
    var r := Without(s, op.item);
    OnlyWithout(s, op.item, keep);
    OnlyInsertAt(r, Place(op, r), op.item, keep);
  }

  /** A run leaves the items it does not name in place and in order, in every list. */
  lemma {:induction false} RunKeepsOthers<L, X>(ops: seq<Op<L, X>>, l: L, s: seq<X>, keep: set<X>)
    requires forall op :: op in ops ==> op.item !in keep
    ensures Only(Run(ops, l, s), keep) == Only(s, keep)
  {
    if ops != [] {
      EffectKeepsOthers(ops[0], l, s, keep);
      RunKeepsOthers(ops[1..], l, Effect(ops[0], l, s), keep);
    }
  }

  class LinkedListItem {
    var data: ListItem
    var pred: LinkedListItem?
    var succ: LinkedListItem?
    var hostDb: LinkedList?

    constructor (p_data: ListItem)
      ensures data == p_data && pred == null && succ == null && hostDb == null
    {
      data := p_data;
      pred, succ, hostDb := null, null, null;
    }

    /** Takes the item out of the list it is in, if any. */
    method Remove(ghost lists: set<LinkedList>, ghost items: set<LinkedListItem>)
      requires Consistent(lists, items) && this in items
      modifies lists, items`pred, items`succ, this`hostDb
      ensures Consistent(lists, items) && hostDb == null
      ensures forall l :: l in lists ==> l.Nodes == Effect(Take(this), l, old(l.Nodes))
    {
      forall l | l in lists && l != hostDb ensures Without(l.Nodes, this) == l.Nodes {
        WithoutAbsent(l.Nodes, this);
      }
      if hostDb != null {
        var _ := hostDb.RemoveItem(this, lists, items);
      }
    }
  }

  /** A closed world of lists and items: every list is a well-formed chain of items of the world, and
      every item is in the one list its host pointer names, or in none. */
  ghost predicate Consistent(lists: set<LinkedList>, items: set<LinkedListItem>)
    reads lists, items
  {
    && (forall l :: l in lists ==> (forall x :: x in l.Nodes ==> x in items) && l.Valid())
    && (forall x :: x in items && x.hostDb == null ==> x.pred == null && x.succ == null)
    && (forall x :: x in items && x.hostDb != null ==> x.hostDb in lists && x in x.hostDb.Nodes)
  }

  ghost function ItemAt(s: seq<LinkedListItem>, i: int): LinkedListItem? {
    if 0 <= i < |s| then s[i] else null
  }

  /** The neighbours of the item at `j` once the item at `k` is taken out. */
  lemma ClosedNeighbours(was: seq<LinkedListItem>, k: nat, j: nat)
    requires k < |was| && j < |was| && j != k
    ensures var s, i := RemoveAt(was, k), if j < k then j else j - 1;
            && i < |s| == |was| - 1 && s[i] == was[j]
            && ItemAt(s, i - 1) == ItemAt(was, if j == k + 1 then k - 1 else j - 1)
            && ItemAt(s, i + 1) == ItemAt(was, if j == k - 1 then k + 1 else j + 1)
  {
  }

  /** The neighbours of the item at `j`, and of the new item, once an item is put in at `k`. */
  lemma SplicedNeighbours(was: seq<LinkedListItem>, k: nat, j: nat, x: LinkedListItem)
    requires k <= |was| && j <= |was|
    ensures var s := InsertAt(was, k, x);
            && |s| == |was| + 1 && s[k] == x && ItemAt(s, k - 1) == ItemAt(was, k - 1) && ItemAt(s, k + 1) == ItemAt(was, k)
            && (j < |was| ==>
                 var i := if j < k then j else j + 1;
                 && s[i] == was[j]
                 && ItemAt(s, i - 1) == (if j == k then x else ItemAt(was, j - 1))
                 && ItemAt(s, i + 1) == (if j == k - 1 then x else ItemAt(was, j + 1)))
  {
  }

  twostate predicate SameItem(x: LinkedListItem)
    reads x
  {
    x.pred == old(x.pred) && x.succ == old(x.succ) && x.hostDb == old(x.hostDb)
  }

  twostate predicate SameList(l: LinkedList)
    reads l
  {
    l.headItem == old(l.headItem) && l.tailItem == old(l.tailItem) && l.size == old(l.size) && l.Nodes == old(l.Nodes)
  }

  class LinkedList {
    var headItem: LinkedListItem?
    var tailItem: LinkedListItem?
    var size: nat
    ghost var Nodes: seq<LinkedListItem>

    /** The pointers spell out `Nodes`: an acyclic chain with matching back links, ends and owner. */
    ghost predicate Valid()
      reads this, Nodes
    {
      && Distinct(Nodes)
      && headItem == ItemAt(Nodes, 0)
      && tailItem == ItemAt(Nodes, |Nodes| - 1)
      && size == |Nodes| % SIZE_RANGE
      && (forall x :: x in Nodes ==> x.hostDb == this)
      && (forall i {:trigger Nodes[i].pred} :: 0 <= i < |Nodes| ==> Nodes[i].pred == ItemAt(Nodes, i - 1))
      && (forall i {:trigger Nodes[i].succ} :: 0 <= i < |Nodes| ==> Nodes[i].succ == ItemAt(Nodes, i + 1))
    }

    constructor ()
      ensures Valid() && Nodes == []
    {
      headItem, tailItem, size, Nodes := null, null, 0, [];
    }

    method RemoveItem(litem: LinkedListItem, ghost lists: set<LinkedList>, ghost items: set<LinkedListItem>)
      returns (err: int)
      requires Consistent(lists, items) && this in lists && litem in items
      modifies this, items`pred, items`succ, litem`hostDb
      ensures Consistent(lists, items)
      ensures err == if old(litem.hostDb) == this then OK else ELEMENT_NOT_IN_DATABASE
      ensures forall l :: l in lists && l != this ==> l.Nodes == old(l.Nodes)
      ensures Nodes == if old(litem.hostDb) == this then Without(old(Nodes), litem) else old(Nodes)
      ensures old(litem.hostDb) == this ==> litem.hostDb == null
    {
      if litem.hostDb != this {
        return ELEMENT_NOT_IN_DATABASE;
      }
      ghost var k := IndexOf(Nodes, litem);
      RemoveAtElements(Nodes, k);
      Withdraw(litem, k);
      Detached(litem, lists, items);
      WithoutAt(old(Nodes), k);
      return OK;
    }

    /** A list none of whose fields or items were written is as well formed as before. */
    static twostate lemma StillValid(l: LinkedList)
      requires old(l.Valid()) && SameList(l) && (forall x :: x in l.Nodes ==> SameItem(x))
      ensures l.Valid()
    {
      forall i | 0 <= i < |l.Nodes|
        ensures l.Nodes[i].pred == old(l.Nodes[i].pred) && l.Nodes[i].succ == old(l.Nodes[i].succ)
      {
        assert l.Nodes[i] in l.Nodes;
      }
    }

    /** An item unlinked from this list, and nothing else touched, leaves the world consistent. */
    twostate lemma Detached(new x: LinkedListItem, new lists: set<LinkedList>, new items: set<LinkedListItem>)
      requires old(allocated(x)) && old(allocated(lists)) && old(allocated(items))
      requires old(Consistent(lists, items))
      requires this in lists && x in items && x in old(Nodes)
      requires x.hostDb == null && x.pred == null && x.succ == null
      requires Valid()
      requires forall y :: y in Nodes <==> y != x && y in old(Nodes)
      requires forall l :: l in lists && l != this ==> SameList(l)
      requires forall y :: y in items && y !in old(Nodes) ==> SameItem(y)
      ensures Consistent(lists, items)
    {
      forall l | l in lists && l != this ensures l.Valid() {
        StillValid(l);
      }
    }

    /** Item `k` of a well-formed chain, its neighbours, and the ends. */
    lemma Neighbours(k: nat)
      requires Valid() && k < |Nodes|
      ensures Nodes[k].hostDb == this
      ensures var p, q := Nodes[k].pred, Nodes[k].succ;
              && p == ItemAt(Nodes, k - 1) && q == ItemAt(Nodes, k + 1) && p != Nodes[k] && q != Nodes[k]
              && (if p == null then k == 0 && headItem == Nodes[k] else p in Nodes && p != q && headItem != Nodes[k])
              && (if q == null then k + 1 == |Nodes| && tailItem == Nodes[k] else q in Nodes && tailItem != Nodes[k])
    {
      assert Nodes[k] in Nodes;
    }

    method Withdraw(litem: LinkedListItem, ghost k: nat)
      requires Valid() && k < |Nodes| && Nodes[k] == litem
      modifies this, Nodes`pred, Nodes`succ, litem`hostDb
      ensures Valid() && Nodes == RemoveAt(old(Nodes), k)
      ensures litem.hostDb == null && litem.pred == null && litem.succ == null
    {
      ghost var was, p, q := Nodes, litem.pred, litem.succ;
      Unlink(litem, k);
      Nodes := RemoveAt(was, k);
      ClosedUp(was, k, p, q);
    }

    /** The pointer surgery of `RemoveItem`, on one well-formed list. */
    method Unlink(litem: LinkedListItem, ghost k: nat)
      requires Valid() && k < |Nodes| && Nodes[k] == litem
      modifies this`headItem, this`tailItem, this`size, Nodes`pred, Nodes`succ, litem`hostDb
      ensures Bypassed(Nodes, k, old(litem.pred), old(litem.succ))
      ensures litem.hostDb == null && litem.pred == null && litem.succ == null
    {
      var succ := litem.succ;
      var pred := litem.pred;
      Neighbours(k);
      assert pred == ItemAt(Nodes, k - 1) && succ == ItemAt(Nodes, k + 1) && (succ == null <==> tailItem == litem);
      if litem.pred == null {
        headItem := succ;
      }
      if tailItem == litem {
        tailItem := pred;
      }
      assert headItem == (if pred == null then succ else old(headItem)) && tailItem == (if succ == null then pred else old(tailItem));
      if pred != null {
        pred.succ := succ;
      }
      if succ != null {
        succ.pred := pred;
      }
      litem.hostDb := null;
      litem.pred := null;
      litem.succ := null;
      size := (size + SIZE_RANGE - 1) % SIZE_RANGE;
    }

    /** Ends and items that spell out `Nodes`, place by place. */
    ghost predicate LinkedAt(i: nat)
      requires i < |Nodes|
      reads this, Nodes
    {
      var x := Nodes[i];
      x.hostDb == this && x.pred == ItemAt(Nodes, i - 1) && x.succ == ItemAt(Nodes, i + 1)
    }

    lemma Chained()
      requires Distinct(Nodes) && size == |Nodes| % SIZE_RANGE
      requires headItem == ItemAt(Nodes, 0) && tailItem == ItemAt(Nodes, |Nodes| - 1)
      requires forall i :: 0 <= i < |Nodes| ==> LinkedAt(i)
      ensures Valid()
    {
      assert forall i {:trigger Nodes[i]} :: 0 <= i < |Nodes| ==> LinkedAt(i);
    }

    /** The writes that bypass item `k` of a chain: its neighbours and the ends are linked past it. */
    twostate predicate Bypassed(new was: seq<LinkedListItem>, k: nat, new p: LinkedListItem?, new q: LinkedListItem?)
      reads this, was, p, q
    {
      && k < |was| && was == old(Nodes)
      && p == ItemAt(was, k - 1) && q == ItemAt(was, k + 1) && size == (|was| - 1) % SIZE_RANGE
      && (if p == null then headItem == q else p.succ == q && headItem == old(headItem))
      && (if q == null then tailItem == p else q.pred == p && tailItem == old(tailItem))
      && (forall y :: y in was && y != was[k] ==>
           y.hostDb == old(y.hostDb) && (y != q ==> y.pred == old(y.pred)) && (y != p ==> y.succ == old(y.succ)))
    }

    twostate lemma ClosedAt(new was: seq<LinkedListItem>, new k: nat, new p: LinkedListItem?, new q: LinkedListItem?, new j: nat)
      requires old(Valid()) && Bypassed(was, k, p, q) && Nodes == RemoveAt(was, k) && j < |was| && j != k
      ensures LinkedAt(if j < k then j else j - 1)
    {
      ClosedNeighbours(was, k, j);
      assert was[j] in was && was[j] != was[k] && (was[j] == p <==> j == k - 1) && (was[j] == q <==> j == k + 1);
    }

    /** Bypassing item `k` of a well-formed chain leaves a well-formed chain of the others. */
    twostate lemma ClosedUp(new was: seq<LinkedListItem>, new k: nat, new p: LinkedListItem?, new q: LinkedListItem?)
      requires old(Valid()) && Bypassed(was, k, p, q) && Nodes == RemoveAt(was, k)
      ensures Valid()
    {
      forall i | 0 <= i < |Nodes|
        ensures LinkedAt(i)
      {
        ClosedAt(was, k, p, q, if i < k then i else i + 1);
      }
      RemoveAtElements(was, k);
      Chained();
    }

    method UnlinkHead()
      requires Valid() && headItem != null
      modifies this, Nodes`pred, Nodes`succ, Nodes`hostDb
      ensures Valid() && |old(Nodes)| > 0 && Nodes == RemoveAt(old(Nodes), 0)
      ensures forall x :: x in old(Nodes) ==> x.hostDb == if x == old(headItem) then null else this
      ensures old(headItem) == old(Nodes)[0] && old(headItem).pred == null && old(headItem).succ == null
    {
      ghost var was := Nodes;
      var ret := headItem;
      Neighbours(0);
      assert ret == was[0] && ret.succ == ItemAt(was, 1);
      headItem := headItem.succ;
      if headItem != null {
        headItem.pred := null;
      } else {
        tailItem := null;
      }
      ret.pred := null;
      ret.succ := null;
      ret.hostDb := null;
      size := (size + SIZE_RANGE - 1) % SIZE_RANGE;
      Nodes := RemoveAt(was, 0);
      ClosedUp(was, 0, null, old(headItem.succ));
    }

    method UnlinkTail()
      requires Valid() && headItem != null
      modifies this, Nodes`pred, Nodes`succ, Nodes`hostDb
      ensures Valid() && |old(Nodes)| > 0 && Nodes == RemoveAt(old(Nodes), |old(Nodes)| - 1)
      ensures forall x :: x in old(Nodes) ==> x.hostDb == if x == old(tailItem) then null else this
      ensures old(tailItem) == old(Nodes)[|old(Nodes)| - 1] && old(tailItem).pred == null && old(tailItem).succ == null
    {
      ghost var was := Nodes;
      var ret := tailItem;
      Neighbours(|was| - 1);
      tailItem := tailItem.pred;
      if tailItem != null {
        tailItem.succ := null;
      } else {
        headItem := null;
      }
      ret.pred := null;
      ret.succ := null;
      ret.hostDb := null;
      size := (size + SIZE_RANGE - 1) % SIZE_RANGE;
      Nodes := RemoveAt(was, |was| - 1);
      ClosedUp(was, |was| - 1, old(tailItem.pred), null);
    }

    /** Takes the first item out of the list; null on an empty list. */
    method RemoveHead(ghost lists: set<LinkedList>, ghost items: set<LinkedListItem>) returns (ret: LinkedListItem?)
      requires Consistent(lists, items) && this in lists
      modifies this, items`pred, items`succ, items`hostDb
      ensures Consistent(lists, items)
      ensures forall l :: l in lists && l != this ==> l.Nodes == old(l.Nodes)
      ensures if old(Nodes) == [] then ret == null && Nodes == []
              else [ret] + Nodes == old(Nodes) && ret.hostDb == null
    {
      ret := headItem;
      if ret != null {
        RemoveAtElements(Nodes, 0);
        UnlinkHead();
        Detached(ret, lists, items);
      }
    }

    /** Takes the last item out of the list; null on an empty list. */
    method RemoveTail(ghost lists: set<LinkedList>, ghost items: set<LinkedListItem>) returns (ret: LinkedListItem?)
      requires Consistent(lists, items) && this in lists
      modifies this, items`pred, items`succ, items`hostDb
      ensures Consistent(lists, items)
      ensures forall l :: l in lists && l != this ==> l.Nodes == old(l.Nodes)
      ensures if old(Nodes) == [] then ret == null && Nodes == []
              else Nodes + [ret] == old(Nodes) && ret.hostDb == null
    {
      ret := tailItem;
      if ret != null {
        RemoveAtElements(Nodes, |Nodes| - 1);
        UnlinkTail();
        Detached(ret, lists, items);
      }
    }

    /** The first item that holds `data`; null when there is none. */
    method GetItem(data: ListItem) returns (curItem: LinkedListItem?)
      requires Valid()
      ensures curItem == null ==> forall x :: x in Nodes ==> x.data != data
      ensures curItem != null ==> curItem in Nodes && curItem.data == data
      ensures curItem != null ==> forall i :: 0 <= i < IndexOf(Nodes, curItem) ==> Nodes[i].data != data
    {
      curItem := headItem;
      ghost var k := 0;
      while curItem != null && curItem.data != data
        invariant 0 <= k <= |Nodes| && curItem == ItemAt(Nodes, k)
        invariant forall i :: 0 <= i < k ==> Nodes[i].data != data
        decreases |Nodes| - k
      {
        assert curItem == Nodes[k];
        curItem := curItem.succ;
        k := k + 1;
      }
      assert curItem != null ==> IndexOf(Nodes, curItem) == k;
    }

    /** The writes that splice an item in at position `k` of a chain: it, its neighbours and the ends are linked to each other. */
    twostate predicate Spliced(new was: seq<LinkedListItem>, k: nat, new x: LinkedListItem, new p: LinkedListItem?, new q: LinkedListItem?)
      reads this, was, x, p, q
    {
      && k <= |was| && was == old(Nodes) && x !in was
      && p == ItemAt(was, k - 1) && q == ItemAt(was, k) && size == (|was| + 1) % SIZE_RANGE
      && x.hostDb == this && x.pred == p && x.succ == q
      && (if p == null then headItem == x else p.succ == x && headItem == old(headItem))
      && (if q == null then tailItem == x else q.pred == x && tailItem == old(tailItem))
      && (forall y :: y in was ==> y.hostDb == old(y.hostDb) && (y != q ==> y.pred == old(y.pred)) && (y != p ==> y.succ == old(y.succ)))
    }

    twostate lemma SplicedAt(new was: seq<LinkedListItem>, new k: nat, new x: LinkedListItem, new p: LinkedListItem?,
        new q: LinkedListItem?, new j: nat)
      requires old(Valid()) && Spliced(was, k, x, p, q) && Nodes == InsertAt(was, k, x) && j < |was|
      ensures LinkedAt(if j < k then j else j + 1)
    {
      SplicedNeighbours(was, k, j, x);
      assert was[j] in was && (was[j] == p <==> j == k - 1) && (was[j] == q <==> j == k);
    }

    /** Splicing an item into a well-formed chain gives a well-formed chain. */
    twostate lemma SplicedIn(new was: seq<LinkedListItem>, new k: nat, new x: LinkedListItem, new p: LinkedListItem?, new q: LinkedListItem?)
      requires old(Valid()) && Spliced(was, k, x, p, q) && Nodes == InsertAt(was, k, x)
      ensures Valid() && (forall y :: y in Nodes <==> y == x || y in was)
    {
      SplicedNeighbours(was, k, k, x);
      forall i | 0 <= i < |Nodes|
        ensures LinkedAt(i)
      {
        if i != k {
          SplicedAt(was, k, x, p, q, if i < k then i else i - 1);
        }
      }
      InsertAtElements(was, k, x);
      Chained();
    }

    /** A free item linked into this list, and nothing else touched, leaves the world consistent. */
    twostate lemma Attached(new x: LinkedListItem, new lists: set<LinkedList>, new items: set<LinkedListItem>)
      requires old(allocated(x)) && old(allocated(lists)) && old(allocated(items))
      requires old(Consistent(lists, items))
      requires this in lists && x in items && old(x.hostDb) == null
      requires Valid()
      requires forall y :: y in Nodes <==> y == x || y in old(Nodes)
      requires forall l :: l in lists && l != this ==> SameList(l)
      requires forall y :: y in items && y != x && y !in old(Nodes) ==> SameItem(y)
      ensures Consistent(lists, items)
    {
      forall l | l in lists && l != this ensures l.Valid() {
        StillValid(l);
      }
    }

    method LinkTail(llitem: LinkedListItem)
      requires Valid() && llitem.hostDb == null
      modifies this`headItem, this`tailItem, this`size, llitem`pred, llitem`succ, llitem`hostDb, Nodes`succ
      ensures Spliced(Nodes, |Nodes|, llitem, old(tailItem), null)
    {
      assert llitem !in Nodes;
      llitem.hostDb := this;
      if headItem == null {
        headItem := llitem;
        tailItem := llitem;
        llitem.pred := null;
        llitem.succ := null;
      } else {
        llitem.pred := tailItem;
        llitem.succ := null;
        tailItem.succ := llitem;
        tailItem := llitem;
      }
      size := (size + 1) % SIZE_RANGE;
    }

    method LinkHead(llitem: LinkedListItem)
      requires Valid() && llitem.hostDb == null
      modifies this`headItem, this`tailItem, this`size, llitem`pred, llitem`succ, llitem`hostDb, Nodes`pred
      ensures Spliced(Nodes, 0, llitem, null, old(headItem))
    {
      assert llitem !in Nodes;
      llitem.hostDb := this;
      if headItem == null {
        headItem := llitem;
        tailItem := llitem;
        llitem.pred := null;
        llitem.succ := null;
      } else {
        if headItem == tailItem {
          tailItem := headItem;
        }
        llitem.pred := null;
        llitem.succ := headItem;
        headItem.pred := llitem;
        headItem := llitem;
      }
      size := (size + 1) % SIZE_RANGE;
    }

    method LinkAfter(llItem: LinkedListItem, existingItem: LinkedListItem, ghost k: nat)
      requires Valid() && llItem.hostDb == null
      requires k < |Nodes| && Nodes[k] == existingItem
      modifies this`headItem, this`tailItem, this`size, llItem`pred, llItem`succ, llItem`hostDb, Nodes`pred, Nodes`succ
      ensures Spliced(Nodes, k + 1, llItem, existingItem, old(existingItem.succ))
    {
      Neighbours(k);
      assert existingItem == ItemAt(Nodes, k);
      assert llItem !in Nodes;
      if existingItem.succ != null {
        existingItem.succ.pred := llItem;
        llItem.succ := existingItem.succ;
      } else {
        tailItem := llItem;
        llItem.succ := null;
      }
      existingItem.succ := llItem;
      llItem.pred := existingItem;
      llItem.hostDb := this;
      size := (size + 1) % SIZE_RANGE;
    }

    method LinkBefore(llItem: LinkedListItem, existingItem: LinkedListItem, ghost k: nat)
      requires Valid() && llItem.hostDb == null
      requires k < |Nodes| && Nodes[k] == existingItem
      modifies this`headItem, this`tailItem, this`size, llItem`pred, llItem`succ, llItem`hostDb, Nodes`pred, Nodes`succ
      ensures Spliced(Nodes, k, llItem, old(existingItem.pred), existingItem)
    {
      Neighbours(k);
      assert llItem !in Nodes;
      if existingItem.pred != null {
        existingItem.pred.succ := llItem;
        llItem.pred := existingItem.pred;
      } else {
        headItem := llItem;
        llItem.pred := null;
      }
      existingItem.pred := llItem;
      llItem.succ := existingItem;
      llItem.hostDb := this;
      size := (size + 1) % SIZE_RANGE;
    }

    /** The four ways of linking in a free item leave the world consistent, and other lists alone. */
    method PutTail(llitem: LinkedListItem, ghost lists: set<LinkedList>, ghost items: set<LinkedListItem>)
      requires Consistent(lists, items) && this in lists && llitem in items && llitem.hostDb == null
      modifies this, llitem`pred, llitem`succ, llitem`hostDb, Nodes`succ
      ensures Consistent(lists, items) && Nodes == InsertAt(old(Nodes), |old(Nodes)|, llitem)
      ensures forall l :: l in lists && l != this ==> l.Nodes == old(l.Nodes)
    {
      ghost var was, p, q := Nodes, tailItem, null;
      LinkTail(llitem);
      Nodes := InsertAt(was, |was|, llitem);
      SplicedIn(was, |was|, llitem, p, q);
      Attached(llitem, lists, items);
    }

    method PutHead(llitem: LinkedListItem, ghost lists: set<LinkedList>, ghost items: set<LinkedListItem>)
      requires Consistent(lists, items) && this in lists && llitem in items && llitem.hostDb == null
      modifies this, llitem`pred, llitem`succ, llitem`hostDb, Nodes`pred
      ensures Consistent(lists, items) && Nodes == InsertAt(old(Nodes), 0, llitem)
      ensures forall l :: l in lists && l != this ==> l.Nodes == old(l.Nodes)
    {
      ghost var was, p, q := Nodes, null, headItem;
      LinkHead(llitem);
      Nodes := InsertAt(was, 0, llitem);
      SplicedIn(was, 0, llitem, p, q);
      Attached(llitem, lists, items);
    }

    method PutAfter(llItem: LinkedListItem, existingItem: LinkedListItem, ghost k: nat,
        ghost lists: set<LinkedList>, ghost items: set<LinkedListItem>)
      requires Consistent(lists, items) && this in lists && llItem in items && llItem.hostDb == null
      requires 0 < k <= |Nodes| && Nodes[k - 1] == existingItem
      modifies this, llItem`pred, llItem`succ, llItem`hostDb, Nodes`pred, Nodes`succ
      ensures Consistent(lists, items) && Nodes == InsertAt(old(Nodes), k, llItem)
      ensures forall l :: l in lists && l != this ==> l.Nodes == old(l.Nodes)
    {
      ghost var was, p, q := Nodes, existingItem, existingItem.succ;
      LinkAfter(llItem, existingItem, k - 1);
      Nodes := InsertAt(was, k, llItem);
      SplicedIn(was, k, llItem, p, q);
      Attached(llItem, lists, items);
    }

    method PutBefore(llItem: LinkedListItem, existingItem: LinkedListItem, ghost k: nat,
        ghost lists: set<LinkedList>, ghost items: set<LinkedListItem>)
      requires Consistent(lists, items) && this in lists && llItem in items && llItem.hostDb == null
      requires k < |Nodes| && Nodes[k] == existingItem
      modifies this, llItem`pred, llItem`succ, llItem`hostDb, Nodes`pred, Nodes`succ
      ensures Consistent(lists, items) && Nodes == InsertAt(old(Nodes), k, llItem)
      ensures forall l :: l in lists && l != this ==> l.Nodes == old(l.Nodes)
    {
      ghost var was, p, q := Nodes, existingItem.pred, existingItem;
      LinkBefore(llItem, existingItem, k);
      Nodes := InsertAt(was, k, llItem);
      SplicedIn(was, k, llItem, p, q);
      Attached(llItem, lists, items);
    }

    /** Moves `llitem` from wherever it is to the end of this list. */
    method AddTail(llitem: LinkedListItem, ghost lists: set<LinkedList>, ghost items: set<LinkedListItem>)
      returns (err: int)
      requires Consistent(lists, items) && this in lists && llitem in items
      modifies lists, items`pred, items`succ, llitem`hostDb
      ensures Consistent(lists, items) && err == OK
      ensures forall l :: l in lists ==> l.Nodes == Effect(ToTail(llitem, this), l, old(l.Nodes))
    {
      llitem.Remove(lists, items);
      PutTail(llitem, lists, items);
      return OK;
    }

    /** Moves `llitem` from wherever it is to the front of this list. */
    method AddHead(llitem: LinkedListItem, ghost lists: set<LinkedList>, ghost items: set<LinkedListItem>)
      returns (err: int)
      requires Consistent(lists, items) && this in lists && llitem in items
      modifies lists, items`pred, items`succ, llitem`hostDb
      ensures Consistent(lists, items) && err == OK
      ensures forall l :: l in lists ==> l.Nodes == Effect(ToHead(llitem, this), l, old(l.Nodes))
    {
      llitem.Remove(lists, items);
      PutHead(llitem, lists, items);
      return OK;
    }

    /** Moves `llItem` right behind `existingItem`, another item of this list. */
    method InsertAfter(llItem: LinkedListItem, existingItem: LinkedListItem,
        ghost lists: set<LinkedList>, ghost items: set<LinkedListItem>)
      returns (err: int)
      requires Consistent(lists, items) && this in lists && llItem in items
      requires existingItem in Nodes && existingItem != llItem
      modifies lists, items`pred, items`succ, llItem`hostDb
      ensures Consistent(lists, items) && err == OK
      ensures forall l :: l in lists ==> l.Nodes == Effect(After(llItem, this, existingItem), l, old(l.Nodes))
    {
      ghost var op := After(llItem, this, existingItem);
      NextTo(op, Nodes);
      llItem.Remove(lists, items);
      PutAfter(llItem, existingItem, Place(op, Nodes), lists, items);
      return OK;
    }

    /** Moves `llItem` right in front of `existingItem`, another item of this list. */
    method InsertBefore(llItem: LinkedListItem, existingItem: LinkedListItem,
        ghost lists: set<LinkedList>, ghost items: set<LinkedListItem>)
      returns (err: int)
      requires Consistent(lists, items) && this in lists && llItem in items
      requires existingItem in Nodes && existingItem != llItem
      modifies lists, items`pred, items`succ, llItem`hostDb
      ensures Consistent(lists, items) && err == OK
      ensures forall l :: l in lists ==> l.Nodes == Effect(Before(llItem, this, existingItem), l, old(l.Nodes))
    {
      ghost var op := Before(llItem, this, existingItem);
      NextTo(op, Nodes);
      llItem.Remove(lists, items);
      PutBefore(llItem, existingItem, Place(op, Nodes), lists, items);
      return OK;
    }
  }
}
