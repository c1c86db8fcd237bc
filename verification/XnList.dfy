/**
 * The list of XnList.h: the ring of XnListT, but with its nodes taken from a node pool, and counted
 * by walking it. Nodes go back to the pool one by one.
 */
module XnList {
  import opened XnStatus
  import opened XnListT

  /** The node pool. Whether it has a node to give is not ours to know. */
  class NodePool {
    var outstanding: nat
    /** How many requests were turned down. */
    ghost var refused: nat

    constructor ()
      ensures outstanding == 0
    {
      outstanding := 0;
      refused := 0;
    }

    method Allocate() returns (ok: bool)
      modifies this
      ensures outstanding == old(outstanding) + (if ok then 1 else 0)
      ensures refused == old(refused) + (if ok then 0 else 1)
    {
      ok := *;
      if ok {
        outstanding := outstanding + 1;
      } else {
        refused := refused + 1;
      }
    }

    /** The base node of a new list; the list constructor counts on getting it. */
    method AllocateBase()
      modifies this`outstanding
      ensures outstanding == old(outstanding) + 1
    {
      outstanding := outstanding + 1;
    }

    method Deallocate()
      requires outstanding > 0
      modifies this`outstanding
      ensures outstanding == old(outstanding) - 1
    {
      outstanding := outstanding - 1;
    }
  }

  /** A list of values; `ring.anchor` is its base node. */
  class PooledList<T(==, 0)> {
    const ring: List<T>
    const pool: NodePool

    /** The base node and the nodes of the ring are among those the pool has given out. */
    ghost predicate Valid()
      reads this, ring, ring.anchor, ring.nodes, pool
    {
      ring.Valid() && pool.outstanding >= 1 + |ring.nodes|
    }

    /** The nodes of the pool that other owners hold. */
    ghost function Elsewhere(): int
      reads this, ring, pool
    {
      pool.outstanding - 1 - |ring.nodes|
    }

    constructor (pool: NodePool)
      modifies pool
      ensures Valid() && this.pool == pool && fresh(ring) && fresh(ring.anchor)
      ensures ring.Values() == [] && Elsewhere() == old(pool.outstanding)
    {
      ring := new List();
      this.pool := pool;
      new;
      pool.AllocateBase();
    }

    /** Adds behind the node at position `p`, if the pool has a node for it. */
    method Add(pWhere: LinkedNode<T>, val: T, ghost p: int) returns (st: Status)
      requires Valid()
      requires -1 <= p < |ring.nodes| && pWhere == ring.At(p)
      modifies ring, ring.anchor, ring.nodes, pool
      ensures Valid() && Elsewhere() == old(Elsewhere())
      ensures st == OK || st == ALLOC_FAILED
      ensures pool.refused == old(pool.refused) + (if st == ALLOC_FAILED then 1 else 0)
      ensures ring.Values() == if st == OK then Inserted(old(ring.Values()), p + 1, val) else old(ring.Values())
    {
      var ok := pool.Allocate();
      ghost var n;
      st, n := ring.InsertAfter(pWhere, val, ok, p);
    }

    method AddFirst(val: T) returns (st: Status)
      requires Valid()
      modifies ring, ring.anchor, ring.nodes, pool
      ensures Valid() && Elsewhere() == old(Elsewhere())
      ensures st == OK || st == ALLOC_FAILED
      ensures pool.refused == old(pool.refused) + (if st == ALLOC_FAILED then 1 else 0)
      ensures ring.Values() == if st == OK then [val] + old(ring.Values()) else old(ring.Values())
    {
      st := Add(ring.anchor, val, -1);
    }

    method AddLast(val: T) returns (st: Status)
      requires Valid()
      modifies ring, ring.anchor, ring.nodes, pool
      ensures Valid() && Elsewhere() == old(Elsewhere())
      ensures st == OK || st == ALLOC_FAILED
      ensures pool.refused == old(pool.refused) + (if st == ALLOC_FAILED then 1 else 0)
      ensures ring.Values() == if st == OK then old(ring.Values()) + [val] else old(ring.Values())
    {
      assert ring.Edge(|ring.nodes|);
      st := Add(ring.anchor.pPrev, val, |ring.nodes| - 1);
    }

    method AddAfter(where: LinkedNode<T>, val: T, ghost p: int) returns (st: Status)
      requires Valid()
      requires 0 <= p <= |ring.nodes| && where == ring.At(p)
      modifies ring, ring.anchor, ring.nodes, pool
      ensures Valid() && Elsewhere() == old(Elsewhere())
      ensures st == ILLEGAL_POSITION <==> p == |old(ring.nodes)|
      ensures pool.refused == old(pool.refused) + (if st == ALLOC_FAILED then 1 else 0)
      ensures st in {OK, ALLOC_FAILED, ILLEGAL_POSITION}
      ensures ring.Values() == if st == OK then Inserted(old(ring.Values()), p + 1, val) else old(ring.Values())
    {
      if where == ring.anchor {
        return ILLEGAL_POSITION;
      }
      st := Add(where, val, p);
    }

    method AddBefore(where: LinkedNode<T>, val: T, ghost p: int) returns (st: Status)
      requires Valid()
      requires 0 <= p <= |ring.nodes| && where == ring.At(p)
      modifies ring, ring.anchor, ring.nodes, pool
      ensures Valid() && Elsewhere() == old(Elsewhere())
      ensures st == ILLEGAL_POSITION <==> p == |old(ring.nodes)|
      ensures pool.refused == old(pool.refused) + (if st == ALLOC_FAILED then 1 else 0)
      ensures st in {OK, ALLOC_FAILED, ILLEGAL_POSITION}
      ensures ring.Values() == if st == OK then Inserted(old(ring.Values()), p, val) else old(ring.Values())
    {
      if where == ring.anchor {
        return ILLEGAL_POSITION;
      }
      assert ring.Edge(p);
      st := Add(where.pPrev, val, p - 1);
    }

    method IsEmpty() returns (r: bool)
      requires Valid()
      ensures r <==> ring.Values() == []
    {
      assert ring.Edge(0);
      r := ring.anchor.pNext == ring.anchor;
    }

    /** The iterator at the first occurrence, which is end() when there is none. */
    method Find(val: T) returns (it: LinkedNode<T>)
      requires Valid()
      ensures it == ring.At(FirstIndex(ring.Values(), val))
    {
      var empty := IsEmpty();
      if empty {
        return ring.anchor;
      }
      it := ring.Find(val);
    }

    method Remove(where: LinkedNode<T>, ghost p: int) returns (st: Status)
      requires Valid()
      requires 0 <= p <= |ring.nodes| && where == ring.At(p)
      modifies ring, ring.anchor, ring.nodes, pool
      ensures Valid() && Elsewhere() == old(Elsewhere())
      ensures st == if p == |old(ring.nodes)| then ILLEGAL_POSITION else OK
      ensures st != OK ==> ring.nodes == old(ring.nodes) && ring.Values() == old(ring.Values())
      ensures st == OK ==> ring.nodes == Deleted(old(ring.nodes), p) && ring.Values() == Deleted(old(ring.Values()), p)
    {
      st := ring.Remove(where, p);
      if st == OK {
        pool.Deallocate();
      }
    }

    /** Removes the first node until the list is empty; every node but the base is back in the pool. */
    method Clear()
      requires Valid()
      modifies ring, ring.anchor, ring.nodes, pool
      ensures Valid() && ring.Values() == []
      ensures pool.outstanding == old(pool.outstanding) - |old(ring.nodes)|
    {
      var empty := IsEmpty();
      while !empty
        invariant Valid() && Elsewhere() == old(Elsewhere())
        invariant forall i :: 0 <= i < |ring.nodes| ==> ring.nodes[i] in old(ring.nodes)
        invariant empty <==> ring.Values() == []
        decreases |ring.nodes|
      {
        assert ring.Edge(0);
        var _ := Remove(ring.anchor.pNext, 0);
        empty := IsEmpty();
      }
    }

    /** Counts by walking from begin() to end(); the cached size of the other list is the same number. */
    method Size() returns (n: nat)
      requires Valid()
      ensures n == |ring.Values()| && n == ring.size
    {
      n := 0;
      assert ring.Edge(0);
      var it := ring.anchor.pNext;
      while it != ring.anchor
        invariant 0 <= n <= |ring.nodes| && it == ring.At(n)
        decreases |ring.nodes| - n
      {
        assert ring.Edge(n + 1);
        it := it.pNext;
        n := n + 1;
      }
    }
  }
}
