/**
 * The intrusive circular list of XnListT.h. A list is a ring of nodes closed by an anchor node that
 * holds no entry. `ghost const ring` names the anchor a node was allocated for: a node never moves to
 * another list, so two lists with different anchors cannot share a node.
 */
module XnListT {
  import opened XnStatus

  class LinkedNode<T> {
    var pPrev: LinkedNode?<T>
    var pNext: LinkedNode?<T>
    var value: T
    ghost const ring: LinkedNode<T>

    constructor Anchor(value: T)
      ensures ring == this && pPrev == this && pNext == this
    {
      this.value := value;
      this.ring := this;
      this.pPrev := this;
      this.pNext := this;
    }

    constructor (value: T, ghost ring: LinkedNode<T>)
      ensures this.value == value && this.ring == ring && pPrev == null && pNext == null
    {
      this.value := value;
      this.ring := ring;
      this.pPrev := null;
      this.pNext := null;
    }
  }

  /** `s` with `x` inserted so that it ends up at index `at`. */
  function Inserted<X>(s: seq<X>, at: nat, x: X): (r: seq<X>)
    requires at <= |s|
    ensures |r| == |s| + 1
    ensures forall i :: 0 <= i < at ==> r[i] == s[i]
    ensures r[at] == x
    ensures forall i :: at < i < |r| ==> r[i] == s[i - 1]
  {
    s[..at] + [x] + s[at..]
  }

  /** `s` without the element at index `at`. */
  function Deleted<X>(s: seq<X>, at: nat): (r: seq<X>)
    requires at < |s|
  {
    s[..at] + s[at + 1..]
  }

  ghost predicate Distinct<X>(s: seq<X>) {
    forall i, j :: 0 <= i < j < |s| ==> s[i] != s[j]
  }

  lemma InsertedDistinct<X>(s: seq<X>, at: nat, x: X)
    requires at <= |s| && Distinct(s) && x !in s
    ensures Distinct(Inserted(s, at, x))
  {
  }

  lemma DeletedDistinct<X>(s: seq<X>, at: nat)
    requires at < |s| && Distinct(s)
    ensures Distinct(Deleted(s, at))
    ensures s[at] !in Deleted(s, at)
  {
  }

  /** The index of the first occurrence of `x`, or |s| when there is none. */
  function FirstIndex<X(==)>(s: seq<X>, x: X): (r: nat)
    ensures r <= |s|
    ensures forall i :: 0 <= i < r ==> s[i] != x
    ensures r < |s| ==> s[r] == x
  {
    if s == [] || s[0] == x then 0 else 1 + FirstIndex(s[1..], x)
  }

  lemma FirstIndexIs<X>(s: seq<X>, x: X, k: nat)
    requires k <= |s| && x !in s[..k] && (k < |s| ==> s[k] == x)
    ensures FirstIndex(s, x) == k
  {
    assert forall i :: 0 <= i < k ==> s[i] in s[..k];
  }

  /** The outcome of the allocation at turn `p`; beyond the outcomes listed there is memory. */
  predicate Granted(outcomes: seq<bool>, p: nat) {
    p < |outcomes| ==> outcomes[p]
  }

  /** The elements of `s` whose turn comes out well. */
  function Picked<X>(s: seq<X>, ok: seq<bool>): (r: seq<X>)
    ensures |r| <= |s|
  {
    if s == [] then []
    else Picked(s[..|s| - 1], ok) + (if Granted(ok, |s| - 1) then [s[|s| - 1]] else [])
  }

  lemma PickedNext<X>(s: seq<X>, k: nat, ok: seq<bool>)
    requires k < |s|
    ensures Picked(s[..k + 1], ok) == Picked(s[..k], ok) + (if Granted(ok, k) then [s[k]] else [])
  {
    assert s[..k + 1][..k] == s[..k];
  }

  /** Nothing is missing exactly when every turn comes out well. */
  lemma {:induction false} PickedAll<X>(s: seq<X>, ok: seq<bool>)
    ensures Picked(s, ok) == s <==> forall i :: 0 <= i < |s| ==> Granted(ok, i)
    ensures |Picked(s, ok)| == |s| <==> forall i :: 0 <= i < |s| ==> Granted(ok, i)
  {
    if s != [] {
      var n := |s| - 1;
      PickedAll(s[..n], ok);
      if Picked(s, ok) == s {
        assert Granted(ok, n);
        assert Picked(s[..n], ok) == Picked(s, ok)[..n];
      }
    }
  }

  class List<T(==, 0)> {
    const anchor: LinkedNode<T>
    var size: nat
    ghost var nodes: seq<LinkedNode<T>>

    /** Ring position `i`, with the anchor standing at both -1 and |nodes|. */
    ghost function At(i: int): LinkedNode<T>
      reads this
    {
      if 0 <= i < |nodes| then nodes[i] else anchor
    }

    /** Positions `i - 1` and `i` point at each other. */
    ghost predicate Edge(i: int)
      reads this, anchor, nodes
    {
      At(i - 1).pNext == At(i) && At(i).pPrev == At(i - 1)
    }

    ghost predicate Valid()
      reads this, anchor, nodes
    {
      && size == |nodes|
      && anchor.ring == anchor
      && (forall i :: 0 <= i < |nodes| ==> nodes[i].ring == anchor && nodes[i] != anchor)
      && Distinct(nodes)
      && (forall i :: 0 <= i <= |nodes| ==> Edge(i))
    }

    ghost function Values(): (r: seq<T>)
      reads this, nodes
      ensures |r| == |nodes|
      ensures forall i :: 0 <= i < |r| ==> r[i] == nodes[i].value
    {
      seq(|nodes|, i requires 0 <= i < |nodes| reads this, nodes => nodes[i].value)
    }

    /** Where `k` steps along `pNext` lead from the anchor; null when a link is missing. */
    ghost function Forward(k: nat): LinkedNode?<T>
      reads *
    {
      if k == 0 then anchor else
        var m := Forward(k - 1);
        if m == null then null else m.pNext
    }

    /** The same along `pPrev`. */
    ghost function Backward(k: nat): LinkedNode?<T>
      reads *
    {
      if k == 0 then anchor else
        var m := Backward(k - 1);
        if m == null then null else m.pPrev
    }

    lemma {:induction false} WalkStands(k: nat)
      requires Valid() && k <= |nodes| + 1
      ensures Forward(k) == At(k - 1) && Backward(k) == At(|nodes| - k)
    {
      if k > 0 {
        WalkStands(k - 1);
        assert Edge(k - 1) && Edge(|nodes| + 1 - k);
      }
    }

    /** The ring closes: behind the last node, and in front of the first, comes the anchor, also when there is none. */
    lemma RingCloses()
      requires Valid()
      ensures Forward(size + 1) == anchor && Backward(size + 1) == anchor
    {
      WalkStands(size + 1);
    }

    /**
     * Following pNext from the anchor meets `size` different nodes in the order of the values, none of them
     * the anchor; pPrev walks the same nodes the other way.
     */
    lemma RingWalk(j: nat, k: nat)
      requires Valid() && 1 <= j <= k <= size
      ensures Forward(k) != anchor && Forward(k) != null && Forward(k).value == Values()[k - 1]
      ensures Forward(j) == Forward(k) ==> j == k
      ensures Backward(size + 1 - k) == Forward(k)
    {
      WalkStands(j);
      WalkStands(k);
      WalkStands(size + 1 - k);
    }

    /** The objects an operation on this list may write. */
    ghost function Footprint(): set<object>
      reads this
    {
      {this, anchor} + (set n | n in nodes)
    }

    /** A list none of whose objects changed is the same list. */
    twostate lemma Unchanged()
      requires old(Valid())
      requires unchanged(this) && unchanged(anchor)
      requires forall i :: 0 <= i < |nodes| ==> unchanged(nodes[i])
      ensures Valid() && nodes == old(nodes) && Values() == old(Values())
    {
    }

    constructor ()
      ensures Valid() && nodes == [] && Values() == [] && fresh(anchor)
    {
      var v: T := *;
      anchor := new LinkedNode<T>.Anchor(v);
      size := 0;
      nodes := [];
    }

    /** When the surviving nodes keep their values, an inserted node inserts its value. */
    twostate lemma ValuesInserted(at: nat, new n: LinkedNode<T>)
      requires at <= |old(nodes)| && nodes == Inserted(old(nodes), at, n)
      requires forall m :: m in old(nodes) ==> m.value == old(m.value)
      ensures Values() == Inserted(old(Values()), at, n.value)
    {
    }

    /** When the surviving nodes keep their values, a deleted node deletes its value. */
    twostate lemma ValuesDeleted(at: nat)
      requires at < |old(nodes)|
      requires nodes == Deleted(old(nodes), at)
      requires forall n :: n in nodes ==> n.value == old(n.value)
      ensures Values() == Deleted(old(Values()), at)
    {
    }

    /** The edge that led to the former position `i` is still there. */
    twostate predicate Kept(i: int)
      reads *
    {
      old(At(i - 1)).pNext == old(At(i)) && old(At(i)).pPrev == old(At(i - 1))
    }

    /** Only the links next to the new node changed, so the ring is whole again. */
    twostate lemma RingInserted(p: int, new n: LinkedNode<T>)
      requires old(Valid())
      requires -1 <= p < |old(nodes)|
      requires size == old(size) + 1 && nodes == Inserted(old(nodes), p + 1, n)
      requires n.ring == anchor && n != anchor && n !in old(nodes)
      requires n.pPrev == old(At(p)) && n.pNext == old(At(p + 1))
      requires old(At(p)).pNext == n && old(At(p + 1)).pPrev == n
      requires forall i :: 0 <= i <= |old(nodes)| && i != p + 1 ==> Kept(i)
      ensures Valid()
    {
      forall i | 0 <= i <= |nodes|
        ensures Edge(i)
      {
        if i <= p {
          assert At(i) == old(At(i)) && At(i - 1) == old(At(i - 1));
          assert Kept(i);
        } else if i > p + 2 {
          assert At(i) == old(At(i - 1)) && At(i - 1) == old(At(i - 2));
          assert Kept(i - 1);
        }
      }
      InsertedDistinct(old(nodes), p + 1, n);
    }

    /** Bypassing one node leaves the ring of the others. */
    twostate lemma RingDeleted(p: int)
      requires old(Valid())
      requires 0 <= p < |old(nodes)|
      requires size == old(size) - 1 && nodes == Deleted(old(nodes), p)
      requires old(At(p - 1)).pNext == old(At(p + 1)) && old(At(p + 1)).pPrev == old(At(p - 1))
      requires forall i :: 0 <= i <= |old(nodes)| && i != p && i != p + 1 ==> Kept(i)
      ensures Valid()
    {
      forall i | 0 <= i <= |nodes|
        ensures Edge(i)
      {
        if i < p {
          assert At(i) == old(At(i)) && At(i - 1) == old(At(i - 1));
          assert Kept(i);
        } else if i > p {
          assert At(i) == old(At(i + 1)) && At(i - 1) == old(At(i));
          assert Kept(i + 1);
        }
      }
      DeletedDistinct(old(nodes), p);
    }

    /** Entries are added behind `pAfter`; a failed allocation changes nothing. */
    method InsertAfter(pAfter: LinkedNode<T>, val: T, allocOk: bool, ghost p: int)
      returns (st: Status, ghost n: LinkedNode<T>)
      requires Valid()
      requires -1 <= p < |nodes| && pAfter == At(p)
      modifies this, anchor, nodes
      ensures Valid()
      ensures st == if allocOk then OK else ALLOC_FAILED
      ensures !allocOk ==> nodes == old(nodes) && Values() == old(Values())
      ensures allocOk ==> fresh(n) && nodes == Inserted(old(nodes), p + 1, n)
      ensures allocOk ==> Values() == Inserted(old(Values()), p + 1, val)
    {
      if !allocOk {
        return ALLOC_FAILED, anchor;
      }
      assert Edge(p + 1);
      var pNewNode := new LinkedNode<T>(val, anchor);
      pNewNode.pPrev := pAfter;
      pNewNode.pNext := pAfter.pNext;
      pAfter.pNext.pPrev := pNewNode;
      pAfter.pNext := pNewNode;
      size := size + 1;
      nodes := Inserted(nodes, p + 1, pNewNode);
      forall i | 0 <= i <= |old(nodes)| && i != p + 1
        ensures Kept(i)
      {
        assert old(Edge(i));
      }
      RingInserted(p, pNewNode);
      ValuesInserted(p + 1, pNewNode);
      return OK, pNewNode;
    }

    method AddAfter(where: LinkedNode<T>, val: T, allocOk: bool, ghost p: int) returns (st: Status)
      requires Valid()
      requires 0 <= p <= |nodes| && where == At(p)
      modifies this, anchor, nodes
      ensures Valid()
      ensures st == if p == |old(nodes)| then ILLEGAL_POSITION else if allocOk then OK else ALLOC_FAILED
      ensures st != OK ==> nodes == old(nodes) && Values() == old(Values())
      ensures st == OK ==> Values() == Inserted(old(Values()), p + 1, val)
      ensures forall i :: 0 <= i < |nodes| ==> nodes[i] in old(nodes) || fresh(nodes[i])
    {
      if where == anchor {
        return ILLEGAL_POSITION;
      }
      ghost var n;
      st, n := InsertAfter(where, val, allocOk, p);
    }

    method AddBefore(where: LinkedNode<T>, val: T, allocOk: bool, ghost p: int) returns (st: Status)
      requires Valid()
      requires 0 <= p <= |nodes| && where == At(p)
      modifies this, anchor, nodes
      ensures Valid()
      ensures st == if p == |old(nodes)| then ILLEGAL_POSITION else if allocOk then OK else ALLOC_FAILED
      ensures st != OK ==> nodes == old(nodes) && Values() == old(Values())
      ensures st == OK ==> Values() == Inserted(old(Values()), p, val)
      ensures forall i :: 0 <= i < |nodes| ==> nodes[i] in old(nodes) || fresh(nodes[i])
    {
      if where == anchor {
        return ILLEGAL_POSITION;
      }
      assert Edge(p);
      ghost var n;
      st, n := InsertAfter(where.pPrev, val, allocOk, p - 1);
    }

    method AddFirst(val: T, allocOk: bool) returns (st: Status)
      requires Valid()
      modifies this, anchor, nodes
      ensures Valid()
      ensures st == if allocOk then OK else ALLOC_FAILED
      ensures Values() == if allocOk then [val] + old(Values()) else old(Values())
      ensures forall i :: 0 <= i < |nodes| ==> nodes[i] in old(nodes) || fresh(nodes[i])
    {
      ghost var n;
      st, n := InsertAfter(anchor, val, allocOk, -1);
    }

    method AddLast(val: T, allocOk: bool) returns (st: Status)
      requires Valid()
      modifies this, anchor, nodes
      ensures Valid()
      ensures st == if allocOk then OK else ALLOC_FAILED
      ensures Values() == if allocOk then old(Values()) + [val] else old(Values())
      ensures !allocOk ==> nodes == old(nodes)
      ensures allocOk ==> |nodes| == |old(nodes)| + 1 && nodes[..|old(nodes)|] == old(nodes)
      ensures allocOk ==> fresh(nodes[|old(nodes)|])
    {
      assert Edge(|nodes|);
      ghost var n;
      st, n := InsertAfter(anchor.pPrev, val, allocOk, |nodes| - 1);
    }

    /** The iterator at the first occurrence of `val`, which is End() when there is none. */
    method Find(val: T) returns (it: LinkedNode<T>)
      requires Valid()
      ensures it == At(FirstIndex(Values(), val))
    {
      assert Edge(0);
      it := anchor.pNext;
      ghost var k := 0;
      while it != anchor
        invariant 0 <= k <= |nodes| && it == At(k)
        invariant val !in Values()[..k]
        decreases |nodes| - k
      {
        if it.value == val {
          break;
        }
        assert Edge(k + 1);
        assert Values()[..k + 1] == Values()[..k] + [Values()[k]];
        it := it.pNext;
        k := k + 1;
      }
      FirstIndexIs(Values(), val, k);
    }

    method Remove(where: LinkedNode<T>, ghost p: int) returns (st: Status)
      requires Valid()
      requires 0 <= p <= |nodes| && where == At(p)
      modifies this, anchor, nodes
      ensures Valid()
      ensures st == if p == |old(nodes)| then ILLEGAL_POSITION else OK
      ensures st != OK ==> nodes == old(nodes) && Values() == old(Values())
      ensures st == OK ==> nodes == Deleted(old(nodes), p) && Values() == Deleted(old(Values()), p)
    {
      if where == anchor {
        return ILLEGAL_POSITION;
      }
      assert Edge(p) && Edge(p + 1);
      where.pPrev.pNext := where.pNext;
      where.pNext.pPrev := where.pPrev;
      size := size - 1;
      nodes := Deleted(nodes, p);
      forall i | 0 <= i <= |old(nodes)| && i != p && i != p + 1
        ensures Kept(i)
      {
        assert old(Edge(i));
      }
      RingDeleted(p);
      ValuesDeleted(p);
      return OK;
    }

    /** Writes through an iterator. */
    method SetValue(where: LinkedNode<T>, val: T, ghost p: nat)
      requires Valid()
      requires p < |nodes| && where == nodes[p]
      modifies where`value
      ensures Valid()
      ensures Values() == old(Values())[p := val]
    {
      where.value := val;
      forall i | 0 <= i <= |nodes|
        ensures Edge(i)
      {
        assert old(Edge(i));
      }
    }

    /** Removes the first occurrence of a value. */
    method RemoveValue(val: T) returns (st: Status)
      requires Valid()
      modifies this, anchor, nodes
      ensures Valid()
      ensures st == if val in old(Values()) then OK else NO_MATCH
      ensures val !in old(Values()) ==> nodes == old(nodes) && Values() == old(Values())
      ensures val in old(Values()) ==> Values() == Deleted(old(Values()), FirstIndex(old(Values()), val))
    {
      var it := Find(val);
      if it != anchor {
        st := Remove(it, FirstIndex(Values(), val));
      } else {
        st := NO_MATCH;
      }
    }

    method Clear()
      requires Valid()
      modifies this, anchor, nodes
      ensures Valid() && nodes == [] && Values() == []
    {
      while size != 0
        invariant Valid()
        invariant forall i :: 0 <= i < |nodes| ==> nodes[i] in old(nodes)
        decreases size
      {
        assert Edge(0);
        var _ := Remove(anchor.pNext, 0);
      }
    }

    method CopyTo(a: array<T>)
      requires Valid()
      requires size <= a.Length
      modifies a
      ensures a[..size] == Values()
      ensures a[size..] == old(a[size..])
    {
      var i := 0;
      assert Edge(0);
      var it := anchor.pNext;
      while it != anchor
        invariant Valid()
        invariant 0 <= i <= |nodes| && it == At(i)
        invariant a[..i] == Values()[..i]
        invariant a[i..] == old(a[i..])
        invariant Values() == old(Values())
        decreases |nodes| - i
      {
        assert Edge(i + 1);
        a[i] := it.value;
        it := it.pNext;
        i := i + 1;
      }
    }

    /** One step of the loop of operator=: the entry is copied if there is memory for it, and the iterator steps. */
    method AssignOne(other: List<T>, it: LinkedNode<T>, nodeOk: bool, ghost k: nat) returns (next: LinkedNode<T>)
      requires Valid() && other.Valid() && other.anchor != anchor
      requires k < |other.nodes| && it == other.nodes[k]
      modifies this, anchor, nodes
      ensures Valid() && other.Valid()
      ensures Values() == if nodeOk then old(Values()) + [it.value] else old(Values())
      ensures other.nodes == old(other.nodes) && other.Values() == old(other.Values())
      ensures next == other.At(k + 1)
      ensures forall i :: 0 <= i < |nodes| ==> nodes[i] in old(nodes) || fresh(nodes[i])
    {
      assert other.Edge(k + 1);
      next := it.pNext;
      var _ := AddLast(it.value, nodeOk);
      other.Unchanged();
    }

    /**
     * operator=. A failed allocation is asserted against and otherwise passed over, so the entries whose
     * allocation succeeds are what is copied. Assigned to itself, the list is cleared.
     */
    method Assign(other: List<T>, nodeOk: seq<bool>)
      requires Valid() && other.Valid()
      requires other != this ==> other.anchor != anchor
      modifies this, anchor, nodes
      ensures Valid() && other.Valid()
      ensures other == this ==> Values() == []
      ensures other != this ==> other.Values() == old(other.Values()) && Values() == Picked(other.Values(), nodeOk)
    {
      Clear();
      assert other.Edge(0);
      var it := other.anchor.pNext;
      var k := 0;
      while it != other.anchor
        invariant Valid() && (other == this ==> nodes == [])
        invariant other != this ==> other.Valid() && other.nodes == old(other.nodes)
        invariant other != this ==> other.Values() == old(other.Values())
        invariant 0 <= k <= |other.nodes| && it == other.At(k)
        invariant other != this ==> Values() == Picked(other.Values()[..k], nodeOk)
        invariant forall i :: 0 <= i < |nodes| ==> fresh(nodes[i])
        decreases |other.nodes| - k
      {
        PickedNext(other.Values(), k, nodeOk);
        it := AssignOne(other, it, Granted(nodeOk, k), k);
        k := k + 1;
      }
      assert other.Values()[..|other.nodes|] == other.Values();
    }
  }
}
