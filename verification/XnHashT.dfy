/**
 * The hash table of XnHashT.h: 257 bins, all but the sentinel created on first use, each a ring of
 * pairs. The ghost field `table` holds what the bins store; every method is proved against it.
 */
module XnHashT {
  import opened XnStatus
  import opened XnListT
  import opened XnKeyTable

  /** An iterator: the bins it walks, the bin it is in and the node it is at. `idx` counts within the bin. */
  class ConstIterator<K(==, 0, !new), V(==, 0)> {
    const ppBins: array<List?<Pair<K, V>>>
    var currBin: nat
    var currIt: LinkedNode<Pair<K, V>>
    ghost var idx: nat

    /** In an existing bin, at one of its pairs or at the bin's own end. */
    ghost predicate Inside(hash: HashT<K, V>)
      requires hash.Valid()
      reads this, hash, hash.Repr
    {
      ppBins == hash.bins && hash.Reaches(currBin, currIt, idx)
    }

    /** At a stored pair, or at End(). */
    ghost predicate On(hash: HashT<K, V>)
      requires hash.Valid()
      reads this, hash, hash.Repr
    {
      ppBins == hash.bins && hash.Stands(currBin, currIt, idx)
    }

    /** How many pairs an iteration passes before it gets here. */
    ghost function Pos(hash: HashT<K, V>): nat
      requires hash.Valid() && On(hash)
      reads this, hash, hash.Repr
    {
      Position(hash.table, currBin, idx)
    }

    /** How many pairs the iteration over a valid table has passed; None when this is no iterator of it. */
    ghost function Progress(hash: HashT<K, V>): Option<nat>
      reads this, hash, hash.Repr
    {
      if hash.Valid() && On(hash) then Some(Pos(hash)) else None
    }

    constructor (bins: array<List?<Pair<K, V>>>, nCurrBin: nat, it: LinkedNode<Pair<K, V>>,
                 ghost hash: HashT<K, V>, ghost i: nat)
      requires hash.Valid() && bins == hash.bins
      requires if nCurrBin < LAST_BIN then hash.Reaches(nCurrBin, it, i)
               else nCurrBin == LAST_BIN && i == 0 && it == hash.lastBin.anchor
      ensures On(hash) && Pos(hash) == Position(hash.table, nCurrBin, i)
      ensures nCurrBin < LAST_BIN && i < |hash.table[nCurrBin]| ==> currBin == nCurrBin && idx == i
      ensures nCurrBin == LAST_BIN ==> currBin == LAST_BIN
      ensures fresh(this)
    {
      ppBins := bins;
      currBin := nCurrBin;
      currIt := it;
      idx := i;
      new;
      if nCurrBin != LAST_BIN && currIt == ppBins[currBin].anchor {
        Increment(hash);
      }
    }

    /** The part of operator++ that leaves a bin: it passes bins that are missing and bins that are empty. */
    method SkipBins(ghost hash: HashT<K, V>)
      requires hash.Valid() && this !in hash.Repr
      requires ppBins == hash.bins && currBin < LAST_BIN
      modifies this
      ensures On(hash) && idx == 0 && currBin > old(currBin)
      ensures forall d :: old(currBin) < d < currBin ==> hash.table[d] == []
    {
      currBin := currBin + 1;
      while currBin < LAST_BIN && (ppBins[currBin] == null || ppBins[currBin].size == 0)
        invariant old(currBin) < currBin <= LAST_BIN
        invariant forall d :: old(currBin) < d < currBin ==> hash.table[d] == []
      {
        assert hash.BinOk(currBin);
        currBin := currBin + 1;
      }
      assert currBin < LAST_BIN ==> hash.BinOk(currBin);
      assert ppBins[currBin].Edge(0);
      currIt := ppBins[currBin].anchor.pNext;
      idx := 0;
    }

    /** operator++: the next node of the bin or, behind its last one, the first node of the next bin that has any. */
    method Increment(ghost hash: HashT<K, V>)
      requires hash.Valid() && Inside(hash) && this !in hash.Repr
      modifies this
      ensures On(hash)
      ensures Follows(hash.table, old(currBin), old(idx), currBin, idx)
      ensures Pos(hash) == Position(hash.table, old(currBin), old(idx))
                         + (if old(idx) < |hash.table[old(currBin)]| then 1 else 0)
    {
      ghost var bin := hash.bins[currBin];
      if currIt != ppBins[currBin].anchor {
        assert bin.Edge(idx + 1);
        currIt := currIt.pNext;
        idx := idx + 1;
      }
      if currIt == ppBins[currBin].anchor {
        SkipBins(hash);
      }
      FollowsPosition(hash.table, old(currBin), old(idx), currBin, idx);
    }
  }

  class HashT<K(==, 0, !new), V(==, 0)> {
    const km: KeyManager<K>
    const bins: array<List?<Pair<K, V>>>
    const lastBin: List<Pair<K, V>>
    var minBin: nat
    ghost var table: seq<Bin<K, V>>
    ghost var Repr: set<object>
    /** The bin that a list, or the anchor of its ring, belongs to. */
    ghost var home: map<object, nat>

    ghost predicate Shape()
      reads this, bins
    {
      && bins.Length == LAST_BIN + 1
      && bins[LAST_BIN] == lastBin
      && |table| == LAST_BIN
      && minBin <= LAST_BIN
      && bins[minBin] != null
      && (forall b :: 0 <= b < minBin ==> bins[b] == null)
    }

    ghost predicate Home(o: object, b: int)
      reads this
    {
      o in home && home[o] == b
    }

    /** Bin `b` is a ring holding exactly `table[b]`; a bin that was not created stores nothing. */
    ghost predicate BinOk(b: int)
      requires 0 <= b < LAST_BIN && Shape()
      reads this, bins, Repr
    {
      if bins[b] == null then table[b] == []
      else
        && bins[b] in Repr && bins[b].anchor in Repr
        && Home(bins[b], b) && Home(bins[b].anchor, b)
        && (forall i :: 0 <= i < |bins[b].nodes| ==> bins[b].nodes[i] in Repr)
        && bins[b].Valid() && bins[b].Values() == table[b]
    }

    ghost predicate Valid()
      reads this, Repr
      ensures Valid() ==> this in Repr
    {
      && this in Repr && bins in Repr && lastBin in Repr && lastBin.anchor in Repr
      && Shape()
      && lastBin.nodes == [] && lastBin.Valid()
      && (forall b {:trigger BinOk(b)} :: 0 <= b < LAST_BIN ==> BinOk(b))
      && Home(lastBin, LAST_BIN) && Home(lastBin.anchor, LAST_BIN)
      && TableWF(km, table)
    }

    /** The bins that exist, besides the sentinel. */
    ghost function Made(): (r: set<nat>)
      reads this, bins
      ensures forall b :: b in r <==> 0 <= b < LAST_BIN && b < bins.Length && bins[b] != null
    {
      set b: nat | 0 <= b < LAST_BIN && b < bins.Length && bins[b] != null
    }

    /** What a valid table stores, and the bins it has; None for any other. */
    ghost function Content(): Option<Store<K, V>>
      reads this, bins, Repr
    {
      if Valid() then Some(Store(table, Made())) else None
    }

    /** `it` is pair `i` of bin `b`, or the end of bin `b`. */
    ghost predicate Reaches(b: nat, it: LinkedNode<Pair<K, V>>, i: nat)
      requires Valid()
      reads this, Repr
    {
      b < LAST_BIN && bins[b] != null && BinOk(b) && i <= |table[b]| && it == bins[b].At(i)
    }

    /** `it` is pair `i` of bin `b`, or the end of the table. */
    ghost predicate Stands(b: nat, it: LinkedNode<Pair<K, V>>, i: nat)
      requires Valid()
      reads this, Repr
    {
      || (Reaches(b, it, i) && i < |table[b]|)
      || (b == LAST_BIN && i == 0 && it == lastBin.anchor)
    }

    constructor (km: KeyManager<K>)
      requires Lawful(km)
      ensures Valid() && fresh(Repr)
      ensures this.km == km && table == EmptyTable()
      ensures forall b :: 0 <= b < LAST_BIN ==> bins[b] == null
    {
      this.km := km;
      bins := new List?<Pair<K, V>>[LAST_BIN + 1](_ => null);
      lastBin := new List();
      minBin := LAST_BIN;
      table := EmptyTable();
      new;
      bins[LAST_BIN] := lastBin;
      Repr := {this, bins, lastBin, lastBin.anchor};
      home := map[lastBin := LAST_BIN, lastBin.anchor := LAST_BIN];
      EmptyRefines<K, V>(km);
    }

    lemma SameBothWays(a: K, b: K)
      requires Valid()
      ensures km.Same(a, b) <==> km.Same(b, a)
    {
    }

    /** The loop that Set and Find run over one bin. */
    method Search(h: HashCode, key: K) returns (it: LinkedNode<Pair<K, V>>, ghost i: nat)
      requires Valid() && bins[h] != null
      ensures i == FindIn(km, table[h], key) && it == bins[h].At(i)
    {
      assert BinOk(h);
      var bin := bins[h];
      assert bin.Edge(0);
      it := bin.anchor.pNext;
      i := 0;
      while it != bin.anchor
        invariant 0 <= i <= |bin.nodes| && it == bin.At(i)
        invariant forall j :: 0 <= j < i ==> !km.Same(table[h][j].key, key)
        decreases |bin.nodes| - i
      {
        if km.compare(it.value.key, key) == 0 {
          return;
        }
        assert bin.Edge(i + 1);
        it := it.pNext;
        i := i + 1;
      }
    }

    method CreateBin(h: HashCode)
      requires Valid() && bins[h] == null
      modifies this, bins
      ensures Valid() && fresh(Repr - old(Repr))
      ensures table == old(table) && bins[h] != null && bins[..] == old(bins[..])[h := bins[h]]
    {
      var bin := new List<Pair<K, V>>();
      bins[h] := bin;
      if h < minBin {
        minBin := h;
      }
      Repr := Repr + {bin, bin.anchor};
      home := home[bin := h][bin.anchor := h];
      forall b | 0 <= b < LAST_BIN
        ensures BinOk(b)
      {
        assert old(BinOk(b));
        if b != h && bins[b] != null {
          bins[b].Unchanged();
        }
      }
      lastBin.Unchanged();
    }

    /** Work on bin `h` leaves every other bin as it was. */
    twostate lemma OtherBin(new h: nat, new b: nat)
      requires h < LAST_BIN && b <= LAST_BIN && b != h
      requires old(Valid()) && old(bins[h]) != null && old(bins[b]) != null
      requires forall o :: o in old(Repr) && o != this && o !in old(bins[h].Footprint()) ==> unchanged(o)
      ensures old(bins[b]).Valid() && old(bins[b]).nodes == old(bins[b].nodes)
      ensures old(bins[b]).Values() == old(bins[b].Values())
    {
      assert b < LAST_BIN ==> old(BinOk(b));
      assert old(BinOk(h));
      var other := old(bins[b]);
      forall o | o in old(other.Footprint())
        ensures unchanged(o)
      {
      }
      other.Unchanged();
    }

    /** A table of which only bin `h` changed is valid when that bin is. */
    twostate lemma BinChanged(new h: nat)
      requires old(Valid())
      requires h < LAST_BIN && old(bins[h]) != null
      requires forall o :: o in old(Repr) && o != this && o !in old(bins[h].Footprint()) ==> unchanged(o)
      requires minBin == old(minBin) && home == old(home) && old(Repr) <= Repr
      requires |table| == LAST_BIN && table == old(table)[h := table[h]] && TableWF(km, table)
      requires unchanged(bins) && BinOk(h)
      ensures Valid()
    {
      forall b | 0 <= b < LAST_BIN && b != h
        ensures BinOk(b)
      {
        assert old(BinOk(b));
        if bins[b] != null {
          OtherBin(h, b);
        }
      }
      OtherBin(h, LAST_BIN);
    }

    /** Adds a pair behind the last one of a bin. */
    method Append(h: HashCode, pair: Pair<K, V>, nodeOk: bool) returns (st: Status)
      requires Valid() && bins[h] != null
      requires nodeOk ==> TableWF(km, table[h := table[h] + [pair]])
      modifies Repr
      ensures Valid() && fresh(Repr - old(Repr))
      ensures bins[..] == old(bins[..])
      ensures st == if nodeOk then OK else ALLOC_FAILED
      ensures table == if nodeOk then old(table)[h := old(table)[h] + [pair]] else old(table)
    {
      assert BinOk(h);
      var bin := bins[h];
      st := bin.AddLast(pair, nodeOk);
      if nodeOk {
        table := table[h := table[h] + [pair]];
        Repr := Repr + {bin.nodes[|bin.nodes| - 1]};
      }
      assert bin.Values() == table[h];
      BinChanged(h);
    }

    method Replace(h: HashCode, it: LinkedNode<Pair<K, V>>, value: V, ghost i: nat)
      requires Valid() && bins[h] != null
      requires i < |table[h]| && it == bins[h].At(i)
      modifies Repr
      ensures Valid() && Repr == old(Repr) && bins[..] == old(bins[..])
      ensures table == old(table)[h := old(table)[h][i := Pair(old(table)[h][i].key, value)]]
    {
      assert BinOk(h);
      assert BinWF(km, h, table[h]);
      bins[h].SetValue(it, Pair(it.value.key, value), i);
      table := table[h := table[h][i := Pair(table[h][i].key, value)]];
      BinChanged(h);
    }

    method Delete(h: HashCode, it: LinkedNode<Pair<K, V>>, ghost i: nat) returns (st: Status)
      requires Valid() && bins[h] != null
      requires i < |table[h]| && it == bins[h].At(i)
      modifies Repr
      ensures Valid() && Repr == old(Repr) && bins[..] == old(bins[..])
      ensures st == OK
      ensures table == old(table)[h := Deleted(old(table)[h], i)]
    {
      assert BinOk(h);
      assert BinWF(km, h, table[h]);
      st := bins[h].Remove(it, i);
      table := table[h := Deleted(table[h], i)];
      BinChanged(h);
    }

    method Set(key: K, value: V, binOk: bool, nodeOk: bool) returns (st: Status)
      requires Valid()
      modifies Repr
      ensures Valid() && fresh(Repr - old(Repr))
      ensures var memory := (old(bins[km.hash(key)]) != null || binOk) && nodeOk;
              st == if GetTable(km, old(table), key) != None || memory then OK else ALLOC_FAILED
      ensures table == if st == OK then SetTable(km, old(table), key, value) else old(table)
      ensures Made() == old(Made()) + (if binOk then {km.hash(key)} else {})
    {
      var h := km.hash(key);
      if bins[h] == null {
        assert BinOk(h);
        if !binOk {
          return ALLOC_FAILED;
        }
        CreateBin(h);
      }
      assert BinOk(h);
      var it, i := Search(h, key);
      if it != bins[h].anchor {
        Replace(h, it, value, i);
        return OK;
      }
      SetKeepsWF(km, table, key, value);
      st := Append(h, Pair(key, value), nodeOk);
    }

    method Begin() returns (it: ConstIterator<K, V>)
      requires Valid()
      ensures fresh(it) && it.On(this) && it.Pos(this) == 0
    {
      forall b | 0 <= b < minBin
        ensures table[b] == []
      {
        assert BinOk(b);
      }
      PrefixSkipsEmpty(table, 0, minBin);
      assert minBin < LAST_BIN ==> BinOk(minBin);
      assert bins[minBin].Edge(0);
      it := new ConstIterator(bins, minBin, bins[minBin].anchor.pNext, this, 0);
    }

    method End() returns (it: ConstIterator<K, V>)
      requires Valid()
      ensures fresh(it) && it.On(this) && it.currBin == LAST_BIN && it.Pos(this) == |Entries(table)|
    {
      assert lastBin.Edge(0);
      it := new ConstIterator(bins, LAST_BIN, bins[LAST_BIN].anchor.pNext, this, 0);
      assert |table| == LAST_BIN;
    }

    /** Comparing nodes alone decides whether two iterators stand at the same place. */
    lemma SameNode(x: ConstIterator<K, V>, y: ConstIterator<K, V>)
      requires Valid() && x.On(this) && y.On(this)
      ensures x.currIt == y.currIt <==> x.currBin == y.currBin && x.idx == y.idx
      ensures x.currIt == y.currIt <==> x.Pos(this) == y.Pos(this)
    {
      if x.currBin < LAST_BIN {
        EntryAt(table, x.currBin, x.idx);
      }
      if y.currBin < LAST_BIN {
        EntryAt(table, y.currBin, y.idx);
      }
      if x.currBin < LAST_BIN && y.currBin < LAST_BIN {
        PositionOrder(table, x.currBin, x.idx, y.currBin, y.idx);
        PositionOrder(table, y.currBin, y.idx, x.currBin, x.idx);
      }
      assert Position(table, LAST_BIN, 0) == |Entries(table)|;
    }

    /** `it == End()`. */
    method AtEnd(it: ConstIterator<K, V>) returns (r: bool)
      requires Valid() && it.On(this)
      ensures r <==> it.currBin == LAST_BIN
      ensures r <==> it.Pos(this) == |Entries(table)|
      ensures it.Pos(this) <= |Entries(table)|
    {
      var e := End();
      SameNode(it, e);
      if it.currBin < LAST_BIN {
        EntryAt(table, it.currBin, it.idx);
      }
      r := it.currIt == e.currIt;
    }

    method IsEmpty() returns (r: bool)
      requires Valid()
      ensures r <==> Entries(table) == []
    {
      var b := Begin();
      r := AtEnd(b);
    }

    /** What an iterator that is not at End() reads. */
    lemma PairAt(it: ConstIterator<K, V>)
      requires Valid() && it.On(this) && it.currBin < LAST_BIN
      ensures it.currIt.value == table[it.currBin][it.idx]
      ensures it.Pos(this) < |Entries(table)| && it.currIt.value == Entries(table)[it.Pos(this)]
    {
      EntryAt(table, it.currBin, it.idx);
    }

    /** An iterator at the pair stored for `key`, or End(). */
    method Find(key: K) returns (it: ConstIterator<K, V>)
      requires Valid()
      ensures fresh(it) && it.On(this)
      ensures GetTable(km, table, key) == None ==> it.currBin == LAST_BIN
      ensures GetTable(km, table, key) != None ==>
                it.currBin == km.hash(key) && it.idx == FindIn(km, table[km.hash(key)], key)
    {
      var h := km.hash(key);
      assert BinOk(h);
      if bins[h] != null {
        var node, i := Search(h, key);
        if node != bins[h].anchor {
          it := new ConstIterator(bins, h, node, this, i);
          return;
        }
      }
      it := End();
    }

    method Get(key: K, prior: V) returns (st: Status, value: V)
      requires Valid()
      ensures GetTable(km, table, key) == None ==> st == NO_MATCH && value == prior
      ensures GetTable(km, table, key) != None ==> st == OK && GetTable(km, table, key) == Some(value)
    {
      var it := Find(key);
      var absent := AtEnd(it);
      if absent {
        return NO_MATCH, prior;
      }
      PairAt(it);
      return OK, it.currIt.value.value;
    }

    /**
     * operator[]: the node whose value the caller may read and write; an absent key is added first. Failures of
     * that are only asserted against: without memory the node is the end of the table, which holds no entry.
     */
    method Index(key: K, fallback: V, binOk: bool, nodeOk: bool) returns (node: LinkedNode<Pair<K, V>>)
      requires Valid()
      modifies Repr
      ensures Valid() && fresh(Repr - old(Repr))
      ensures var added := (old(bins[km.hash(key)]) != null || binOk) && nodeOk;
              table == if added then StepTable(km, old(table), OpIndex(key, fallback)) else old(table)
      ensures if GetTable(km, table, key) == None then node == lastBin.anchor
              else
                && bins[km.hash(key)] != null && FindIn(km, table[km.hash(key)], key) < |table[km.hash(key)]|
                && node == bins[km.hash(key)].At(FindIn(km, table[km.hash(key)], key))
    {
      var it := Find(key);
      var absent := AtEnd(it);
      if absent {
        SetGet(km, table, key, fallback);
        var _ := Set(key, fallback, binOk, nodeOk);
        it := Find(key);
      }
      return it.currIt;
    }

    method Remove(it: ConstIterator<K, V>) returns (st: Status)
      requires Valid() && it.On(this) && it !in Repr
      modifies Repr
      ensures Valid() && Repr == old(Repr) && bins[..] == old(bins[..])
      ensures st == if it.currBin == LAST_BIN then ILLEGAL_POSITION else OK
      ensures table == if it.currBin == LAST_BIN then old(table)
                       else old(table)[it.currBin := Deleted(old(table)[it.currBin], it.idx)]
    {
      var absent := AtEnd(it);
      if absent {
        return ILLEGAL_POSITION;
      }
      st := Delete(it.currBin, it.currIt, it.idx);
    }

    method RemoveKey(key: K) returns (st: Status)
      requires Valid()
      modifies Repr
      ensures Valid() && Repr == old(Repr) && bins[..] == old(bins[..])
      ensures st == if GetTable(km, old(table), key) == None then NO_MATCH else OK
      ensures table == RemoveTable(km, old(table), key)
    {
      var it := Find(key);
      var absent := AtEnd(it);
      if !absent {
        st := Remove(it);
      } else {
        st := NO_MATCH;
      }
    }

    /** Remove(Begin()). */
    method RemoveFirst()
      requires Valid() && Entries(table) != []
      modifies Repr
      ensures Valid() && Repr == old(Repr) && bins[..] == old(bins[..])
      ensures |Entries(table)| == |Entries(old(table))| - 1
    {
      var it := Begin();
      var empty := AtEnd(it);
      PrefixUpdate(table, it.currBin, Deleted(table[it.currBin], it.idx), LAST_BIN);
      var _ := Remove(it);
    }

    /** Removes the first entry until Begin() is End(). */
    method Clear()
      requires Valid()
      modifies Repr
      ensures Valid() && Repr == old(Repr) && bins[..] == old(bins[..])
      ensures table == EmptyTable()
    {
      var empty := IsEmpty();
      while !empty
        invariant Valid() && Repr == old(Repr) && bins[..] == old(bins[..])
        invariant empty <==> Entries(table) == []
        decreases |Entries(table)|
      {
        RemoveFirst();
        empty := IsEmpty();
      }
      NothingStored(table);
    }

    /** `++it`, then `it == End()`. */
    method Next(it: ConstIterator<K, V>, ghost n: nat) returns (end: bool)
      requires it !in Repr && it.Progress(this) == Some(n) && n < |Entries(table)|
      modifies it
      ensures it.Progress(this) == Some(n + 1)
      ensures end <==> n + 1 == |Entries(table)|
      ensures Follows(table, old(it.currBin), old(it.idx), it.currBin, it.idx)
    {
      it.Increment(this);
      end := AtEnd(it);
    }

    /** Counts the steps from Begin() to End(): the number of keys in the map. */
    method Size() returns (n: nat)
      requires Valid()
      ensures n == |Entries(table)| && n == |Abs(km, table)|
    {
      var it := Begin();
      n := CountFrom(it);
      EntryCount(km, table);
    }

    /** The loop of Size. */
    method CountFrom(it: ConstIterator<K, V>) returns (n: nat)
      requires it !in Repr && it.Progress(this) == Some(0)
      modifies it
      ensures n == |Entries(table)|
    {
      n := 0;
      var end := AtEnd(it);
      while !end
        invariant it.Progress(this) == Some(n) && n <= |Entries(table)|
        invariant end <==> n == |Entries(table)|
        decreases |Entries(table)| - n
      {
        end := Next(it, n);
        n := n + 1;
      }
    }

    /** Set(it->Key(), it->Value()), where `it` walks another table; a failure is passed over. */
    method CopyPair(other: HashT<K, V>, it: ConstIterator<K, V>, binOk: bool, nodeOk: bool, ghost n: nat)
      requires Valid() && Repr !! other.Repr
      requires it !in Repr && it.Progress(other) == Some(n) && n < |Entries(other.table)|
      modifies Repr
      ensures fresh(Repr - old(Repr))
      ensures var s, pair := Store(old(table), old(Made())), Entries(other.table)[n];
              Content() == Some(SetStore(km, s, pair.key, pair.value, binOk, nodeOk))
    {
      other.PairAt(it);
      var _ := Set(it.currIt.value.key, it.currIt.value.value, binOk, nodeOk);
      assert old(Made()) + {} == old(Made());
    }

    /** The iteration has passed `n` of the other table's pairs `es`, and the copy is at stage `n`. */
    ghost predicate Copying(other: HashT<K, V>, it: ConstIterator<K, V>, es: seq<Pair<K, V>>,
                            stages: seq<Store<K, V>>, n: nat)
      reads this, bins, Repr, other, other.Repr, it
    {
      && n <= |es| < |stages| && Content() == Some(stages[n])
      && it.Progress(other) == Some(n) && es == Entries(other.table)
      && it !in Repr && it !in other.Repr && Repr !! other.Repr
    }

    /** Copy the pair, step, compare with End(). */
    method CopyOne(other: HashT<K, V>, it: ConstIterator<K, V>, p: nat, binOk: seq<bool>, nodeOk: seq<bool>,
                   ghost es: seq<Pair<K, V>>, ghost stages: seq<Store<K, V>>)
      returns (end: bool)
      requires Copying(other, it, es, stages, p) && p < |es| && Staged(km, es, binOk, nodeOk, stages)
      modifies Repr, it
      ensures Copying(other, it, es, stages, p + 1) && fresh(Repr - old(Repr))
      ensures end <==> p + 1 == |es|
    {
      assert StageOk(km, es, binOk, nodeOk, stages, p);
      CopyPair(other, it, Granted(binOk, p), Granted(nodeOk, p), p);
      end := other.Next(it, p);
    }

    /** The loop of operator=, behind its first comparison with End(): copy the pair, step, compare. */
    method CopyFrom(other: HashT<K, V>, it: ConstIterator<K, V>, binOk: seq<bool>, nodeOk: seq<bool>,
                    ghost es: seq<Pair<K, V>>, ghost stages: seq<Store<K, V>>)
      requires Copying(other, it, es, stages, 0) && es != [] && Staged(km, es, binOk, nodeOk, stages)
      modifies Repr, it
      ensures Copying(other, it, es, stages, |es|) && fresh(Repr - old(Repr))
    {
      var p := 0;
      var end := false;
      while !end
        invariant Copying(other, it, es, stages, p)
        invariant forall o :: o in Repr ==> o in old(Repr) || fresh(o)
        invariant end <==> p == |es|
        decreases |es| - p
      {
        end := CopyOne(other, it, p, binOk, nodeOk, es, stages);
        p := p + 1;
      }
    }

    /** From Begin() on; a table that was just cleared has nothing to copy, so it may be the other table itself. */
    method CopyAll(other: HashT<K, V>, binOk: seq<bool>, nodeOk: seq<bool>)
      requires Valid() && other.Valid() && (other == this || Repr !! other.Repr)
      requires table == EmptyTable()
      modifies Repr
      ensures Valid() && fresh(Repr - old(Repr)) && other.Valid() && other.table == old(other.table)
      ensures var es := Entries(other.table);
              table == CopyAfter(km, es, Memory(old(Made()), binOk, nodeOk), |es|).table
    {
      ghost var es, mem := Entries(other.table), Memory(Made(), binOk, nodeOk);
      var it := other.Begin();
      var end := other.AtEnd(it);
      if other == this {
        PrefixSkipsEmpty(table, 0, LAST_BIN);
      }
      if !end {
        CopyFrom(other, it, binOk, nodeOk, es, Stages(km, es, mem));
      }
    }

    /**
     * operator=: whatever this table held, it ends with those pairs of the other one that found memory. A pair
     * needs a node, and its bin: one that the table had before, or one that could be made for this pair or for
     * an earlier pair of the same hash. The copy is full, iteration order included, exactly when all pairs find
     * theirs. Assigned to itself, the table is cleared.
     */
    method Assign(other: HashT<K, V>, binOk: seq<bool>, nodeOk: seq<bool>)
      requires Valid() && other.Valid() && (other == this || Repr !! other.Repr) && km == other.km
      modifies Repr
      ensures Valid() && fresh(Repr - old(Repr)) && other.Valid()
      ensures other == this ==> table == EmptyTable()
      ensures other != this ==> other.table == old(other.table)
      ensures var es, mem := Entries(other.table), Memory(old(Made()), binOk, nodeOk);
              && table == SetSome(km, es, Provisions(km, es, mem, |es|))
              && (other != this ==> (table == other.table <==> forall p :: 0 <= p < |es| ==> Provided(km, es, mem, p)))
    {
      Clear();
      ghost var mem := Memory(Made(), binOk, nodeOk);
      assert bins[..] == old(bins[..]);
      assert Made() == old(Made());
      CopyAll(other, binOk, nodeOk);
      ghost var source := other.table;
      CopyHolds(km, source, mem, |Entries(source)|);
      CopyIsExact(km, source, mem);
    }
  }
}
