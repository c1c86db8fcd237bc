/**
 * The pooled hash table of XnHash.h: the bins of XnHashT, but with every node taken from the node pool
 * and with an iterator that steps both ways. An entry costs three pool nodes (list node, key node,
 * value node), and a created bin costs one (its base node).
 */
module XnHash {
  import opened XnStatus
  import opened XnListT
  import opened XnKeyTable
  import opened XnList
  import XnHashT

  function CountTrue(s: seq<bool>): nat {
    if s == [] then 0 else CountTrue(s[..|s| - 1]) + (if s[|s| - 1] then 1 else 0)
  }

  lemma NoneCreated(s: seq<bool>)
    requires |s| > 0 && (forall b :: 0 <= b < |s| ==> s[b] == (b == |s| - 1))
    ensures CountTrue(s) == 1
  {
    AllFalse(s[..|s| - 1]);
  }

  lemma {:induction false} AllFalse(s: seq<bool>)
    requires forall b :: 0 <= b < |s| ==> !s[b]
    ensures CountTrue(s) == 0
  {
    if s != [] {
      AllFalse(s[..|s| - 1]);
    }
  }

  lemma {:induction false} CountTrueSet(s: seq<bool>, b: nat)
    requires b < |s| && !s[b]
    ensures CountTrue(s[b := true]) == CountTrue(s) + 1
  {
    var n := |s| - 1;
    if b < n {
      CountTrueSet(s[..n], b);
      assert s[b := true][..n] == s[..n][b := true];
    } else {
      assert s[b := true][..n] == s[..n];
    }
  }

  /** The places of a table: stored pairs, and the end at (|t|, 0). */
  ghost predicate Place<X>(t: seq<seq<X>>, b: nat, i: nat) {
    (b < |t| && i < |t[b]|) || (b == |t| && i == 0)
  }

  /** (c, j) is where operator-- takes an iterator from (b, i): the pair before it, or the end when there is none. */
  ghost predicate Precedes<X>(t: seq<seq<X>>, b: nat, i: nat, c: nat, j: nat)
    requires b < |t|
  {
    || (i > 0 && c == b && j == i - 1)
    || (i == 0 && c < b && j + 1 == |t[c]| && (forall d :: c < d < b ==> t[d] == []))
    || (i == 0 && c == |t| && j == 0 && (forall d :: 0 <= d < b ==> t[d] == []))
  }

  /** Stepping forth from an entry to another entry, and stepping back, are inverse to each other. */
  lemma StepsAreInverse<X>(t: seq<seq<X>>, b: nat, i: nat, c: nat, j: nat)
    requires b < |t| && i < |t[b]| && c < |t| && j < |t[c]|
    ensures Follows(t, b, i, c, j) <==> Precedes(t, c, j, b, i)
  {
  }

  /** Both steps lead somewhere, to one place only. */
  lemma StepsAreFunctions<X>(t: seq<seq<X>>, b: nat, i: nat, c: nat, j: nat, c': nat, j': nat)
    requires b < |t| && i < |t[b]| && Place(t, c, j) && Place(t, c', j')
    ensures Follows(t, b, i, c, j) && Follows(t, b, i, c', j') ==> c == c' && j == j'
    ensures Precedes(t, b, i, c, j) && Precedes(t, b, i, c', j') ==> c == c' && j == j'
  {
  }

  lemma PrecedesPosition<X>(t: seq<seq<X>>, b: nat, i: nat, c: nat, j: nat)
    requires b < |t| && i < |t[b]| && Precedes(t, b, i, c, j)
    ensures c < |t| ==> j < |t[c]| && Position(t, c, j) + 1 == Position(t, b, i)
    ensures c == |t| <==> Position(t, b, i) == 0
  {
    if c < b {
      PrefixSkipsEmpty(t, c + 1, b);
    } else if c == |t| {
      PrefixSkipsEmpty(t, 0, b);
    }
  }

  /** The two-way iterator. */
  class ConstIterator<K(==, 0, !new), V(==, 0)> {
    const hash: XnHashT.HashT<K, V>
    var currentBin: nat
    var iter: LinkedNode<Pair<K, V>>
    ghost var idx: nat

    /** At a stored pair, or at end(). */
    ghost predicate On()
      requires hash.Valid()
      reads this, hash, hash.Repr
    {
      hash.Stands(currentBin, iter, idx)
    }

    constructor (hash: XnHashT.HashT<K, V>, bin: nat, it: LinkedNode<Pair<K, V>>, ghost i: nat)
      requires hash.Valid()
      requires hash.Reaches(bin, it, i) || hash.Stands(bin, it, i)
      ensures fresh(this) && this.hash == hash && On()
      ensures Position(hash.table, currentBin, idx) == Position(hash.table, bin, i)
      ensures bin < LAST_BIN && i < |hash.table[bin]| ==> currentBin == bin && iter == it && idx == i
      ensures bin == LAST_BIN ==> currentBin == LAST_BIN
    {
      this.hash := hash;
      currentBin := bin;
      iter := it;
      idx := i;
      new;
      SkipForward();
    }

    /** An iterator that has been given no place yet: the node of end(), and bin 0. */
    constructor Unplaced(hash: XnHashT.HashT<K, V>)
      ensures this.hash == hash && currentBin == 0 && iter == hash.lastBin.anchor
    {
      this.hash := hash;
      currentBin := 0;
      iter := hash.lastBin.anchor;
      idx := 0;
    }

    /** Leaves the end of a bin for the first node of a later bin, until there is one or no bin is left. */
    method SkipForward()
      requires hash.Valid() && this !in hash.Repr
      requires hash.Reaches(currentBin, iter, idx) || hash.Stands(currentBin, iter, idx)
      modifies this
      ensures On()
      ensures Position(hash.table, currentBin, idx) == Position(hash.table, old(currentBin), old(idx))
      ensures old(On()) ==> currentBin == old(currentBin) && iter == old(iter) && idx == old(idx)
      ensures !old(On()) ==> currentBin > old(currentBin) && idx == 0
      ensures forall d :: old(currentBin) < d < currentBin ==> hash.table[d] == []
    {
      while iter == hash.bins[currentBin].anchor && iter != hash.bins[LAST_BIN].anchor
        invariant currentBin >= old(currentBin)
        invariant hash.Reaches(currentBin, iter, idx) || hash.Stands(currentBin, iter, idx)
        invariant currentBin == old(currentBin) ==> iter == old(iter) && idx == old(idx)
        invariant currentBin > old(currentBin) ==> idx == 0 && !old(On())
        invariant forall d :: old(currentBin) < d < currentBin ==> hash.table[d] == []
        invariant Position(hash.table, currentBin, idx) == Position(hash.table, old(currentBin), old(idx))
        decreases LAST_BIN - currentBin
      {
        ghost var left := currentBin;
        NextBin();
        PrefixSkipsEmpty(hash.table, left + 1, currentBin);
      }
    }

    /** `do m_nCurrentBin++ while NULL`, and the first node of the bin reached. */
    method NextBin()
      requires hash.Valid() && this !in hash.Repr && currentBin < LAST_BIN
      modifies this
      ensures currentBin > old(currentBin) && idx == 0
      ensures hash.Reaches(currentBin, iter, 0) || hash.Stands(currentBin, iter, 0)
      ensures forall d :: old(currentBin) < d < currentBin ==> hash.table[d] == []
    {
      currentBin := currentBin + 1;
      while hash.bins[currentBin] == null
        invariant old(currentBin) < currentBin <= LAST_BIN
        invariant forall d :: old(currentBin) < d < currentBin ==> hash.table[d] == []
        decreases LAST_BIN - currentBin
      {
        assert hash.BinOk(currentBin);
        currentBin := currentBin + 1;
      }
      assert currentBin < LAST_BIN ==> hash.BinOk(currentBin);
      assert hash.bins[currentBin].Edge(0);
      iter := hash.bins[currentBin].anchor.pNext;
      idx := 0;
    }

    /** operator++. At end() it stays there. */
    method Increment()
      requires hash.Valid() && this !in hash.Repr && On()
      modifies this
      ensures On()
      ensures old(currentBin) == LAST_BIN ==> currentBin == LAST_BIN
      ensures old(currentBin) < LAST_BIN ==> Follows(hash.table, old(currentBin), old(idx), currentBin, idx)
    {
      if currentBin == LAST_BIN {
        assert hash.lastBin.Edge(0);
        iter := iter.pNext;
      } else {
        assert hash.bins[currentBin].Edge(idx + 1);
        iter := iter.pNext;
        idx := idx + 1;
      }
      SkipForward();
    }

    /** The inner do-while of operator--: the next lower bin that exists, or none. */
    method PreviousBin() returns (found: bool)
      requires hash.Valid() && this !in hash.Repr && currentBin < LAST_BIN
      modifies this`currentBin
      ensures found ==> currentBin < old(currentBin) && hash.bins[currentBin] != null
      ensures found ==> forall d :: currentBin < d < old(currentBin) ==> hash.table[d] == []
      ensures !found ==> forall d :: 0 <= d < old(currentBin) ==> hash.table[d] == []
    {
      while true
        invariant currentBin <= old(currentBin)
        invariant currentBin < old(currentBin) ==> hash.table[currentBin] == []
        invariant forall d :: currentBin < d < old(currentBin) ==> hash.table[d] == []
        decreases currentBin
      {
        if currentBin == 0 {
          return false;
        }
        currentBin := currentBin - 1;
        assert hash.BinOk(currentBin);
        if hash.bins[currentBin] != null {
          return true;
        }
      }
    }

    /** One turn of the outer loop of operator--: the last node of the next lower bin that exists, or end(). */
    method EnterPreviousBin() returns (found: bool)
      requires hash.Valid() && this !in hash.Repr && currentBin < LAST_BIN
      modifies this
      ensures found ==> currentBin < old(currentBin) && AtLast()
      ensures found ==> forall d :: currentBin < d < old(currentBin) ==> hash.table[d] == []
      ensures !found ==> currentBin == LAST_BIN && iter == hash.lastBin.anchor && idx == 0
      ensures !found ==> forall d :: 0 <= d < old(currentBin) ==> hash.table[d] == []
    {
      found := PreviousBin();
      if !found {
        currentBin := LAST_BIN;
        iter := hash.bins[LAST_BIN].anchor;
        idx := 0;
        return;
      }
      assert hash.BinOk(currentBin);
      assert hash.bins[currentBin].Edge(|hash.table[currentBin]|);
      iter := hash.bins[currentBin].anchor.pPrev;
    }

    /** At the last node of an existing bin, which is the anchor when the bin is empty. */
    ghost predicate AtLast()
      requires hash.Valid()
      reads this, hash, hash.Repr
    {
      && currentBin < LAST_BIN && hash.bins[currentBin] != null && hash.BinOk(currentBin)
      && iter == hash.bins[currentBin].At(|hash.table[currentBin]| - 1)
    }

    /** Leaves the anchor of a bin for the last node of a lower bin, until there is one or no bin is left. */
    method SkipBackward()
      requires hash.Valid() && this !in hash.Repr && currentBin < LAST_BIN
      requires hash.bins[currentBin] != null && iter == hash.bins[currentBin].anchor
      modifies this
      ensures On()
      ensures Precedes(hash.table, old(currentBin), 0, currentBin, idx)
    {
      var found := EnterPreviousBin();
      while found && iter == hash.bins[currentBin].anchor && iter != hash.bins[LAST_BIN].anchor
        invariant found ==> currentBin < old(currentBin) && AtLast()
        invariant found ==> forall d :: currentBin < d < old(currentBin) ==> hash.table[d] == []
        invariant !found ==> currentBin == LAST_BIN && iter == hash.lastBin.anchor && idx == 0
        invariant !found ==> forall d :: 0 <= d < old(currentBin) ==> hash.table[d] == []
        decreases found, currentBin
      {
        found := EnterPreviousBin();
      }
      if found {
        idx := |hash.table[currentBin]| - 1;
      }
    }

    /** operator--. In front of the first entry lies end(), and at end() it stays. */
    method Decrement()
      requires hash.Valid() && this !in hash.Repr && On()
      modifies this
      ensures On()
      ensures old(currentBin) == LAST_BIN ==> currentBin == LAST_BIN
      ensures old(currentBin) < LAST_BIN ==> Precedes(hash.table, old(currentBin), old(idx), currentBin, idx)
    {
      if currentBin == LAST_BIN {
        assert hash.lastBin.Edge(0);
        iter := iter.pPrev;
      } else {
        assert hash.bins[currentBin].Edge(idx);
        iter := iter.pPrev;
        if iter == hash.bins[currentBin].anchor && iter != hash.bins[LAST_BIN].anchor {
          SkipBackward();
        } else {
          idx := idx - 1;
        }
      }
    }

    /** `++it; --it` comes back exactly when another entry follows; behind the last entry it is stuck at end(). */
    method ForthAndBack()
      requires hash.Valid() && this !in hash.Repr && On() && currentBin < LAST_BIN
      modifies this
      ensures On()
      ensures Position(hash.table, old(currentBin), old(idx)) + 1 < |Entries(hash.table)|
              ==> currentBin == old(currentBin) && iter == old(iter) && idx == old(idx)
      ensures Position(hash.table, old(currentBin), old(idx)) + 1 == |Entries(hash.table)| ==> currentBin == LAST_BIN
    {
      Increment();
      FollowsPosition(hash.table, old(currentBin), old(idx), currentBin, idx);
      if currentBin < LAST_BIN {
        EntryAt(hash.table, currentBin, idx);
      }
      assert Position(hash.table, LAST_BIN, 0) == |Entries(hash.table)|;
      Decrement();
    }

    /** `--it; ++it` comes back exactly when another entry precedes; from the first entry it is stuck at end(). */
    method BackAndForth()
      requires hash.Valid() && this !in hash.Repr && On() && currentBin < LAST_BIN
      modifies this
      ensures On()
      ensures Position(hash.table, old(currentBin), old(idx)) > 0
              ==> currentBin == old(currentBin) && iter == old(iter) && idx == old(idx)
      ensures Position(hash.table, old(currentBin), old(idx)) == 0 ==> currentBin == LAST_BIN
    {
      Decrement();
      PrecedesPosition(hash.table, old(currentBin), old(idx), currentBin, idx);
      Increment();
    }
  }

  /** The table: XnHashT's bins, with every node accounted for in the pool. */
  class Hash<K(==, 0, !new), V(==, 0)> {
    const bins: XnHashT.HashT<K, V>
    const pool: NodePool

    /** Which of the 257 bins exist. */
    ghost function Created(): (r: seq<bool>)
      reads bins, bins.bins
      ensures |r| == bins.bins.Length
      ensures forall b :: 0 <= b < |r| ==> r[b] == (bins.bins[b] != null)
    {
      seq(bins.bins.Length, b requires 0 <= b < bins.bins.Length reads bins, bins.bins => bins.bins[b] != null)
    }

    /** One pool node for each bin that exists, and three for each entry. */
    ghost predicate Conserved()
      reads bins, bins.bins, pool
    {
      pool.outstanding == CountTrue(Created()) + 3 * |Entries(bins.table)|
    }

    ghost predicate Valid()
      reads this, bins, bins.bins, bins.Repr, pool
    {
      pool !in bins.Repr && bins.Valid() && Conserved()
    }

    constructor (km: KeyManager<K>)
      requires Lawful(km)
      ensures Valid() && fresh(bins) && fresh(bins.Repr) && fresh(pool)
      ensures bins.km == km && bins.table == EmptyTable()
    {
      bins := new XnHashT.HashT(km);
      pool := new NodePool();
      new;
      pool.AllocateBase();
      NoneCreated(Created());
      PrefixSkipsEmpty(bins.table, 0, LAST_BIN);
    }

    method Matches(key: K, hiter: ConstIterator<K, V>) returns (r: bool)
      requires bins.Valid() && hiter.hash == bins && hiter.On() && hiter.currentBin < LAST_BIN
      ensures r <==> bins.km.Same(bins.table[hiter.currentBin][hiter.idx].key, key)
    {
      bins.SameBothWays(key, hiter.iter.value.key);
      r := bins.km.compare(key, hiter.iter.value.key) == 0;
    }

    /** The two iterators of Find agree until the bin is exhausted. */
    ghost predicate InStep(h: HashCode, iter: LinkedNode<Pair<K, V>>, hiter: ConstIterator<K, V>, k: nat)
      requires bins.Valid()
      reads this, bins, bins.Repr, hiter
    {
      && hiter.hash == bins && hiter.On() && bins.Reaches(h, iter, k)
      && (k < |bins.table[h]| ==> hiter.currentBin == h && hiter.iter == iter && hiter.idx == k)
    }

    /** One turn of the loop of Find: the key is compared and, if it differs, `++iter, ++hiter`. */
    method WalkOne(key: K, h: HashCode, iter: LinkedNode<Pair<K, V>>, hiter: ConstIterator<K, V>, ghost k: nat)
      returns (equal: bool, next: LinkedNode<Pair<K, V>>)
      requires bins.Valid() && hiter !in bins.Repr && InStep(h, iter, hiter, k) && k < |bins.table[h]|
      modifies hiter
      ensures equal <==> bins.km.Same(bins.table[h][k].key, key)
      ensures if equal then hiter.On() && hiter.currentBin == h && hiter.idx == k else InStep(h, next, hiter, k + 1)
    {
      next := iter;
      equal := Matches(key, hiter);
      if !equal {
        assert bins.bins[h].Edge(k + 1);
        next := iter.pNext;
        hiter.Increment();
      }
    }

    /** The loop of Find, from two iterators in step. */
    method Walk(key: K, h: HashCode, start: LinkedNode<Pair<K, V>>, hiter: ConstIterator<K, V>) returns (st: Status)
      requires bins.Valid() && hiter !in bins.Repr && InStep(h, start, hiter, 0)
      modifies hiter
      ensures hiter.On()
      ensures st == if FindIn(bins.km, bins.table[h], key) == |bins.table[h]| then NO_MATCH else OK
      ensures st == OK ==> hiter.currentBin == h && hiter.idx == FindIn(bins.km, bins.table[h], key)
    {
      var iter: LinkedNode<Pair<K, V>> := start;
      ghost var k, bin := 0, bins.table[h];
      while iter != bins.bins[h].anchor
        invariant InStep(h, iter, hiter, k)
        invariant k <= FindIn(bins.km, bin, key)
        decreases |bin| - k
      {
        var equal, next := WalkOne(key, h, iter, hiter, k);
        if equal {
          return OK;
        }
        iter := next;
        k := k + 1;
      }
      st := NO_MATCH;
    }

    /**
     * Find with the hash given: a list iterator and a table iterator move over the bin in step. Of a bin that
     * does not exist nothing is read, and the caller keeps the iterator it had.
     */
    method Find(key: K, h: HashCode, prior: ConstIterator<K, V>) returns (st: Status, hiter: ConstIterator<K, V>)
      requires bins.Valid() && h == bins.km.hash(key)
      ensures if bins.bins[h] == null then hiter == prior else fresh(hiter) && hiter.hash == bins && hiter.On()
      ensures st == if GetTable(bins.km, bins.table, key) == None then NO_MATCH else OK
      ensures st == OK ==>
                bins.bins[h] != null && hiter.currentBin == h && hiter.idx == FindIn(bins.km, bins.table[h], key)
    {
      assert bins.BinOk(h);
      if bins.bins[h] == null {
        return NO_MATCH, prior;
      }
      assert bins.bins[h].Edge(0);
      var first := bins.bins[h].anchor.pNext;
      hiter := new ConstIterator(bins, h, first, 0);
      st := Walk(key, h, first, hiter);
    }

    /**
     * Set, with the pool failing where it likes: at the bin, the key node, the value node or the list node. A
     * new bin whose base node cannot be had is written to all the same: `wild` tells of that one case, of
     * which nothing more is said.
     */
    method Set(key: K, value: V, listOk: bool, baseOk: bool) returns (st: Status, ghost wild: bool)
      requires Valid()
      modifies bins.Repr, pool
      ensures wild <==> old(bins.bins[bins.km.hash(key)]) == null && listOk && !baseOk
      ensures !wild ==> Valid() && (st == OK || st == ALLOC_FAILED) && pool.refused >= old(pool.refused)
      ensures var noList := old(bins.bins[bins.km.hash(key)]) == null && !listOk;
              !wild ==> (st == ALLOC_FAILED <==> noList || pool.refused > old(pool.refused))
      ensures !wild && st == OK ==> bins.table == SetTable(bins.km, old(bins.table), key, value)
      ensures !wild && st == ALLOC_FAILED ==>
                bins.table == old(bins.table) && GetTable(bins.km, bins.table, key) == None
    {
      wild := false;
      var h := bins.km.hash(key);
      if bins.bins[h] != null {
        var prior := new ConstIterator.Unplaced(bins);
        var found, hiter := Find(key, h, prior);
        if found == OK {
          ReplaceValue(hiter, value);
          return OK, false;
        }
      } else {
        assert bins.BinOk(h);
        if !listOk {
          return ALLOC_FAILED, false;
        }
        if !baseOk {
          return ALLOC_FAILED, true;
        }
        CreateList(h);
      }
      st := AddEntry(h, key, value);
    }

    method ReplaceValue(hiter: ConstIterator<K, V>, value: V)
      requires Valid() && hiter !in bins.Repr && hiter.hash == bins && hiter.On() && hiter.currentBin < LAST_BIN
      modifies bins.Repr
      ensures Valid()
      ensures var b, i, t := hiter.currentBin, hiter.idx, old(bins.table);
              bins.table == t[b := t[b][i := Pair(t[b][i].key, value)]]
    {
      ghost var b, i := hiter.currentBin, hiter.idx;
      PrefixUpdate(bins.table, b, bins.table[b][i := Pair(bins.table[b][i].key, value)], LAST_BIN);
      bins.Replace(hiter.currentBin, hiter.iter, value, hiter.idx);
      assert Created() == old(Created());
    }

    method CreateList(h: HashCode)
      requires Valid() && bins.bins[h] == null
      modifies bins.Repr, pool
      ensures Valid() && fresh(bins.Repr - old(bins.Repr))
      ensures bins.table == old(bins.table) && bins.bins[h] != null && pool.refused == old(pool.refused)
    {
      bins.CreateBin(h);
      pool.AllocateBase();
      assert Created() == old(Created())[h := true];
      CountTrueSet(old(Created()), h);
    }

    /** Key node, value node, list node: a failure gives back what was taken before it. */
    method AddEntry(h: HashCode, key: K, value: V) returns (st: Status)
      requires Valid() && bins.bins[h] != null && h == bins.km.hash(key)
      requires GetTable(bins.km, bins.table, key) == None
      modifies bins.Repr, pool
      ensures Valid()
      ensures st == OK || st == ALLOC_FAILED
      ensures pool.refused == old(pool.refused) + (if st == ALLOC_FAILED then 1 else 0)
      ensures bins.table == if st == OK then SetTable(bins.km, old(bins.table), key, value) else old(bins.table)
    {
      var ok := pool.Allocate();
      if !ok {
        return ALLOC_FAILED;
      }
      ok := pool.Allocate();
      if !ok {
        pool.Deallocate();
        return ALLOC_FAILED;
      }
      st := Link(h, key, value);
      if st != OK {
        pool.Deallocate();
        pool.Deallocate();
      }
    }

    /** The list's AddLast, when the key node and the value node are taken: one more node completes an entry. */
    method Link(h: HashCode, key: K, value: V) returns (st: Status)
      requires pool !in bins.Repr && bins.Valid() && bins.bins[h] != null && h == bins.km.hash(key)
      requires GetTable(bins.km, bins.table, key) == None
      requires pool.outstanding == CountTrue(Created()) + 3 * |Entries(bins.table)| + 2
      modifies bins.Repr, pool
      ensures pool !in bins.Repr && bins.Valid()
      ensures st == OK || st == ALLOC_FAILED
      ensures pool.refused == old(pool.refused) + (if st == ALLOC_FAILED then 1 else 0)
      ensures bins.table == if st == OK then SetTable(bins.km, old(bins.table), key, value) else old(bins.table)
      ensures pool.outstanding == CountTrue(Created()) + 3 * |Entries(bins.table)| + (if st == OK then 0 else 2)
    {
      var ok := pool.Allocate();
      ghost var grown := SetTable(bins.km, bins.table, key, value);
      SetKeepsWF(bins.km, bins.table, key, value);
      PrefixUpdate(bins.table, h, grown[h], LAST_BIN);
      st := bins.Append(h, Pair(key, value), ok);
      assert Created() == old(Created());
    }

    /** Remove by iterator: all three nodes of the entry go back to the pool. */
    method Remove(iter: ConstIterator<K, V>) returns (st: Status)
      requires Valid() && iter !in bins.Repr && iter.hash == bins && iter.On()
      modifies bins.Repr, pool
      ensures Valid() && bins.Repr == old(bins.Repr)
      ensures st == if iter.currentBin == LAST_BIN then ILLEGAL_POSITION else OK
      ensures bins.table == if iter.currentBin == LAST_BIN then old(bins.table)
                            else old(bins.table)[iter.currentBin := Deleted(old(bins.table)[iter.currentBin], iter.idx)]
    {
      if iter.iter == bins.lastBin.anchor {
        return ILLEGAL_POSITION;
      }
      EntryAt(bins.table, iter.currentBin, iter.idx);
      PrefixUpdate(bins.table, iter.currentBin, Deleted(bins.table[iter.currentBin], iter.idx), LAST_BIN);
      pool.Deallocate();
      pool.Deallocate();
      st := bins.Delete(iter.currentBin, iter.iter, iter.idx);
      pool.Deallocate();
      assert Created() == old(Created());
    }

    /** Remove by key, handing back the value that was stored. */
    method RemoveKey(key: K, prior: V) returns (st: Status, value: V)
      requires Valid()
      modifies bins.Repr, pool
      ensures Valid()
      ensures bins.table == RemoveTable(bins.km, old(bins.table), key)
      ensures GetTable(bins.km, old(bins.table), key) == None ==> st == NO_MATCH && value == prior
      ensures GetTable(bins.km, old(bins.table), key) != None ==>
                st == OK && GetTable(bins.km, old(bins.table), key) == Some(value)
    {
      var it := new ConstIterator.Unplaced(bins);
      var found, hiter := FindKey(key, it);
      if found != OK {
        return found, prior;
      }
      value := hiter.iter.value.value;
      st := Remove(hiter);
    }

    method Begin() returns (it: ConstIterator<K, V>)
      requires bins.Valid()
      ensures fresh(it) && it.hash == bins && it.On() && Position(bins.table, it.currentBin, it.idx) == 0
    {
      forall b | 0 <= b < bins.minBin
        ensures bins.table[b] == []
      {
        assert bins.BinOk(b);
      }
      PrefixSkipsEmpty(bins.table, 0, bins.minBin);
      assert bins.minBin < LAST_BIN ==> bins.BinOk(bins.minBin);
      assert bins.bins[bins.minBin].Edge(0);
      it := new ConstIterator(bins, bins.minBin, bins.bins[bins.minBin].anchor.pNext, 0);
    }

    /** The public Find. */
    method FindKey(key: K, prior: ConstIterator<K, V>) returns (st: Status, it: ConstIterator<K, V>)
      requires bins.Valid()
      ensures if bins.bins[bins.km.hash(key)] == null then it == prior else fresh(it) && it.hash == bins && it.On()
      ensures st == if GetTable(bins.km, bins.table, key) == None then NO_MATCH else OK
      ensures st == OK ==>
                && bins.bins[bins.km.hash(key)] != null && it.currentBin == bins.km.hash(key)
                && it.idx == FindIn(bins.km, bins.table[it.currentBin], key)
    {
      st, it := Find(key, bins.km.hash(key), prior);
    }

    method Get(key: K, prior: V) returns (st: Status, value: V)
      requires bins.Valid()
      ensures GetTable(bins.km, bins.table, key) == None ==> st == NO_MATCH && value == prior
      ensures GetTable(bins.km, bins.table, key) != None ==>
                st == OK && GetTable(bins.km, bins.table, key) == Some(value)
    {
      var it := new ConstIterator.Unplaced(bins);
      st, it := FindKey(key, it);
      value := if st == OK then it.iter.value.value else prior;
    }

    /** Counts the steps from begin() to end(). */
    method Size() returns (n: nat)
      requires bins.Valid()
      ensures n == |Entries(bins.table)| && n == |Abs(bins.km, bins.table)|
    {
      var it := Begin();
      n := CountFrom(it);
      EntryCount(bins.km, bins.table);
    }

    /** The loop of Size. */
    method CountFrom(it: ConstIterator<K, V>) returns (n: nat)
      requires bins.Valid() && it !in bins.Repr && it.hash == bins && it.On()
      requires Position(bins.table, it.currentBin, it.idx) == 0
      modifies it
      ensures n == |Entries(bins.table)|
    {
      n := 0;
      while it.iter != bins.lastBin.anchor
        invariant it.On() && Position(bins.table, it.currentBin, it.idx) == n
        decreases |Entries(bins.table)| - n
      {
        EntryAt(bins.table, it.currentBin, it.idx);
        ghost var b, i := it.currentBin, it.idx;
        it.Increment();
        FollowsPosition(bins.table, b, i, it.currentBin, it.idx);
        n := n + 1;
      }
      assert Position(bins.table, LAST_BIN, 0) == |Entries(bins.table)|;
    }

    /** begin() == end(). */
    method IsEmpty() returns (r: bool)
      requires bins.Valid()
      ensures r <==> Entries(bins.table) == []
    {
      var it := Begin();
      if it.currentBin < LAST_BIN {
        EntryAt(bins.table, it.currentBin, it.idx);
      }
      assert Position(bins.table, LAST_BIN, 0) == |Entries(bins.table)|;
      r := it.iter == bins.lastBin.anchor;
    }

    /** Remove(begin()). */
    method RemoveFirst()
      requires Valid() && Entries(bins.table) != []
      modifies bins.Repr, pool
      ensures Valid() && bins.Repr == old(bins.Repr)
      ensures |Entries(bins.table)| == |Entries(old(bins.table))| - 1
    {
      var it := Begin();
      assert Position(bins.table, LAST_BIN, 0) == |Entries(bins.table)|;
      PrefixUpdate(bins.table, it.currentBin, Deleted(bins.table[it.currentBin], it.idx), LAST_BIN);
      var _ := Remove(it);
    }

    /** Removes the first entry until there is none; what stays outstanding are the base nodes of the bins. */
    method Clear()
      requires Valid()
      modifies bins.Repr, pool
      ensures Valid() && bins.table == EmptyTable()
      ensures pool.outstanding == CountTrue(Created())
    {
      var empty := IsEmpty();
      while !empty
        invariant Valid() && bins.Repr == old(bins.Repr)
        invariant empty <==> Entries(bins.table) == []
        decreases |Entries(bins.table)|
      {
        RemoveFirst();
        empty := IsEmpty();
      }
      NothingStored(bins.table);
    }
  }
}
