/**
 * What a hash table over 256 bins means, on values: the bins as sequences of pairs, the finite map
 * they stand for, and the order in which an iterator meets the pairs.
 */
module XnKeyTable {
  import opened XnListT
  import opened XnUInt32

  const LAST_BIN: nat := 256

  type HashCode = n: nat | n < LAST_BIN

  datatype Option<+X> = None | Some(value: X)

  datatype Pair<+K, +V> = Pair(key: K, value: V)

  datatype KeyManager<!K> = KeyManager(hash: K -> HashCode, compare: (K, K) -> int) {
    /** The two keys count as one key. */
    predicate Same(a: K, b: K) {
      compare(a, b) == 0
    }
  }

  /** What a key manager owes its table: comparing to 0 is an equivalence that `hash` respects. */
  ghost predicate Lawful<K(!new)>(km: KeyManager<K>) {
    && (forall a :: km.Same(a, a))
    && (forall a, b :: km.Same(a, b) ==> km.Same(b, a))
    && (forall a, b, c :: km.Same(a, b) && km.Same(b, c) ==> km.Same(a, c))
    && (forall a, b :: km.Same(a, b) ==> km.hash(a) == km.hash(b))
  }

  /** The keys that count as the same key as `k`. */
  ghost function ClassOf<K(!new)>(km: KeyManager<K>, k: K): iset<K> {
    iset x | km.Same(x, k)
  }

  lemma ClassEquality<K(!new)>(km: KeyManager<K>, a: K, b: K)
    requires Lawful(km)
    ensures ClassOf(km, a) == ClassOf(km, b) <==> km.Same(a, b)
  {
    assert a in ClassOf(km, a);
    if km.Same(a, b) {
      forall x
        ensures x in ClassOf(km, a) <==> x in ClassOf(km, b)
      {
      }
    }
  }

  // ----- the default key manager -----

  const SIZE_T_VALUES: nat := 0x1_0000_0000_0000_0000

  type SizeT = n: nat | n < SIZE_T_VALUES

  function DefaultHash(key: SizeT): HashCode {
    key % 256
  }

  /** The difference modulo 2^64, cut to its low 32 bits and read as a signed number. */
  function DefaultCompare(a: SizeT, b: SizeT): int {
    var low := ((a - b) % SIZE_T_VALUES) % UINT32_VALUES;
    if low < 0x8000_0000 then low else low - UINT32_VALUES
  }

  function DefaultKeyManager(): KeyManager<SizeT> {
    KeyManager(DefaultHash, DefaultCompare)
  }

  /** Keys that agree in their low 32 bits are one key. */
  lemma DefaultCompareClasses(a: SizeT, b: SizeT)
    ensures DefaultCompare(a, b) == 0 <==> a % UINT32_VALUES == b % UINT32_VALUES
  {
    assert ((a - b) % SIZE_T_VALUES) % UINT32_VALUES == (a - b) % UINT32_VALUES;
  }

  /** The result is the difference of the keys modulo 2^32, as a signed 32-bit number. */
  lemma DefaultCompareIs(a: SizeT, b: SizeT)
    ensures -0x8000_0000 <= DefaultCompare(a, b) < 0x8000_0000
    ensures DefaultCompare(a, b) % UINT32_VALUES == (a - b) % UINT32_VALUES
  {
    assert ((a - b) % SIZE_T_VALUES) % UINT32_VALUES == (a - b) % UINT32_VALUES;
  }

  lemma DefaultHashRespectsClasses(a: SizeT, b: SizeT)
    requires a % UINT32_VALUES == b % UINT32_VALUES
    ensures DefaultHash(a) == DefaultHash(b)
  {
    LowByte(a);
    LowByte(b);
  }

  lemma LowByte(a: nat)
    ensures (a % UINT32_VALUES) % 256 == a % 256
  {
    var q := a / UINT32_VALUES;
    var r := a % UINT32_VALUES;
    assert a == 256 * (0x100_0000 * q) + r;
  }

  lemma DefaultKeyManagerLawful()
    ensures Lawful(DefaultKeyManager())
  {
    forall a: SizeT, b: SizeT
      ensures DefaultCompare(a, b) == 0 <==> a % UINT32_VALUES == b % UINT32_VALUES
      ensures DefaultCompare(a, b) == 0 ==> DefaultHash(a) == DefaultHash(b)
    {
      DefaultCompareClasses(a, b);
      if a % UINT32_VALUES == b % UINT32_VALUES {
        DefaultHashRespectsClasses(a, b);
      }
    }
  }

  // ----- tables -----

  type Bin<K, V> = seq<Pair<K, V>>

  ghost predicate BinWF<K(!new), V>(km: KeyManager<K>, b: nat, bin: Bin<K, V>) {
    && (forall i :: 0 <= i < |bin| ==> km.hash(bin[i].key) == b)
    && (forall i, j :: 0 <= i < j < |bin| ==> !km.Same(bin[i].key, bin[j].key))
  }

  ghost predicate TableWF<K(!new), V>(km: KeyManager<K>, t: seq<Bin<K, V>>) {
    && Lawful(km)
    && |t| == LAST_BIN
    && forall b {:trigger BinWF(km, b, t[b])} :: 0 <= b < LAST_BIN ==> BinWF(km, b, t[b])
  }

  function EmptyTable<K, V>(): seq<Bin<K, V>> {
    seq(LAST_BIN, _ => [])
  }

  /** The first pair of the bin whose key compares equal to `k`, or |bin|. */
  function FindIn<K, V>(km: KeyManager<K>, bin: Bin<K, V>, k: K): (r: nat)
    ensures r <= |bin|
    ensures forall i :: 0 <= i < r ==> !km.Same(bin[i].key, k)
    ensures r < |bin| ==> km.Same(bin[r].key, k)
  {
    if bin == [] || km.Same(bin[0].key, k) then 0 else 1 + FindIn(km, bin[1..], k)
  }

  function SetBin<K, V>(km: KeyManager<K>, bin: Bin<K, V>, k: K, v: V): Bin<K, V> {
    var i := FindIn(km, bin, k);
    if i < |bin| then bin[i := Pair(bin[i].key, v)] else bin + [Pair(k, v)]
  }

  function RemoveBin<K, V>(km: KeyManager<K>, bin: Bin<K, V>, k: K): Bin<K, V> {
    var i := FindIn(km, bin, k);
    if i < |bin| then Deleted(bin, i) else bin
  }

  function SetTable<K, V>(km: KeyManager<K>, t: seq<Bin<K, V>>, k: K, v: V): seq<Bin<K, V>>
    requires |t| == LAST_BIN
  {
    t[km.hash(k) := SetBin(km, t[km.hash(k)], k, v)]
  }

  function RemoveTable<K, V>(km: KeyManager<K>, t: seq<Bin<K, V>>, k: K): seq<Bin<K, V>>
    requires |t| == LAST_BIN
  {
    t[km.hash(k) := RemoveBin(km, t[km.hash(k)], k)]
  }

  function GetTable<K, V>(km: KeyManager<K>, t: seq<Bin<K, V>>, k: K): Option<V>
    requires |t| == LAST_BIN
  {
    var bin := t[km.hash(k)];
    var i := FindIn(km, bin, k);
    if i < |bin| then Some(bin[i].value) else None
  }

  // ----- the finite map a table stands for -----

  /** Pair `i` of bin `b` is stored in the table. */
  ghost predicate Stored<K, V>(t: seq<Bin<K, V>>, b: int, i: int) {
    0 <= b < |t| && 0 <= i < |t[b]|
  }

  lemma StoredOnce<K(!new), V>(km: KeyManager<K>, t: seq<Bin<K, V>>, b: int, i: int, c: int, j: int)
    requires TableWF(km, t) && Stored(t, b, i) && Stored(t, c, j)
    requires ClassOf(km, t[b][i].key) == ClassOf(km, t[c][j].key)
    ensures b == c && i == j
  {
    ClassEquality(km, t[b][i].key, t[c][j].key);
    assert BinWF(km, b, t[b]) && BinWF(km, c, t[c]);
  }

  ghost function Classes<K(!new), V>(km: KeyManager<K>, t: seq<Bin<K, V>>): (r: set<iset<K>>)
    ensures forall c :: c in r <==> exists b, i :: Stored(t, b, i) && c == ClassOf(km, t[b][i].key)
  {
    set b, i | 0 <= b < |t| && 0 <= i < |t[b]| && Stored(t, b, i) :: ClassOf(km, t[b][i].key)
  }

  /** The finite map a table stands for: a key class that is stored maps to the value stored with it. */
  ghost function Abs<K(!new), V>(km: KeyManager<K>, t: seq<Bin<K, V>>): map<iset<K>, V> {
    map c | c in Classes(km, t) ::
      var b, i :| Stored(t, b, i) && c == ClassOf(km, t[b][i].key);
      t[b][i].value
  }

  lemma AbsAt<K(!new), V>(km: KeyManager<K>, t: seq<Bin<K, V>>, b: int, i: int)
    requires TableWF(km, t) && Stored(t, b, i)
    ensures ClassOf(km, t[b][i].key) in Abs(km, t)
    ensures Abs(km, t)[ClassOf(km, t[b][i].key)] == t[b][i].value
  {
    var c := ClassOf(km, t[b][i].key);
    assert c in Classes(km, t);
    var b', i' :| Stored(t, b', i') && c == ClassOf(km, t[b'][i'].key) && Abs(km, t)[c] == t[b'][i'].value;
    StoredOnce(km, t, b, i, b', i');
  }

  /** Looking a key up in its bin is looking its class up in the map. */
  lemma GetRefines<K(!new), V>(km: KeyManager<K>, t: seq<Bin<K, V>>, k: K)
    requires TableWF(km, t)
    ensures GetTable(km, t, k) == (if ClassOf(km, k) in Abs(km, t) then Some(Abs(km, t)[ClassOf(km, k)]) else None)
  {
    var h := km.hash(k);
    var i := FindIn(km, t[h], k);
    if i < |t[h]| {
      AbsAt(km, t, h, i);
      ClassEquality(km, t[h][i].key, k);
    } else if ClassOf(km, k) in Abs(km, t) {
      var b, j :| Stored(t, b, j) && ClassOf(km, k) == ClassOf(km, t[b][j].key);
      OthersDiffer(km, t, k, b, j);
      ClassEquality(km, k, t[b][j].key);
    }
  }

  /** A map that agrees with every stored pair, and has no class besides theirs, is the table's map. */
  lemma AbsIs<K(!new), V>(km: KeyManager<K>, t: seq<Bin<K, V>>, m: map<iset<K>, V>)
    requires TableWF(km, t)
    requires forall b, i :: Stored(t, b, i) ==>
               ClassOf(km, t[b][i].key) in m && m[ClassOf(km, t[b][i].key)] == t[b][i].value
    requires forall c :: c in m ==> c in Classes(km, t)
    ensures Abs(km, t) == m
  {
    forall c | c in m
      ensures c in Abs(km, t) && Abs(km, t)[c] == m[c]
    {
      var b, i :| Stored(t, b, i) && c == ClassOf(km, t[b][i].key);
      AbsAt(km, t, b, i);
    }
  }

  lemma SetKeepsWF<K(!new), V>(km: KeyManager<K>, t: seq<Bin<K, V>>, k: K, v: V)
    requires TableWF(km, t)
    ensures TableWF(km, SetTable(km, t, k, v))
  {
    var h := km.hash(k);
    assert BinWF(km, h, t[h]);
  }

  lemma RemoveKeepsWF<K(!new), V>(km: KeyManager<K>, t: seq<Bin<K, V>>, k: K)
    requires TableWF(km, t)
    ensures TableWF(km, RemoveTable(km, t, k))
  {
    var h := km.hash(k);
    assert BinWF(km, h, t[h]);
  }

  /** Only the pair that FindIn finds has a key that counts as `k`. */
  lemma OthersDiffer<K(!new), V>(km: KeyManager<K>, t: seq<Bin<K, V>>, k: K, b: int, i: int)
    requires TableWF(km, t) && Stored(t, b, i)
    requires b != km.hash(k) || i != FindIn(km, t[km.hash(k)], k)
    ensures !km.Same(t[b][i].key, k)
  {
    assert BinWF(km, b, t[b]);
  }

  /** Set is map update, on every table and key. */
  lemma SetRefines<K(!new), V>(km: KeyManager<K>, t: seq<Bin<K, V>>, k: K, v: V)
    requires TableWF(km, t)
    ensures TableWF(km, SetTable(km, t, k, v))
    ensures Abs(km, SetTable(km, t, k, v)) == Abs(km, t)[ClassOf(km, k) := v]
  {
    SetKeepsWF(km, t, k, v);
    var t': seq<Bin<K, V>> := SetTable(km, t, k, v);
    var m' := Abs(km, t)[ClassOf(km, k) := v];
    var h := km.hash(k);
    var f := FindIn(km, t[h], k);
    forall b, i | Stored(t', b, i)
      ensures ClassOf(km, t'[b][i].key) in m' && m'[ClassOf(km, t'[b][i].key)] == t'[b][i].value
    {
      ClassEquality(km, t'[b][i].key, k);
      if b == h && i == f {
      } else {
        AbsAt(km, t, b, i);
        OthersDiffer(km, t, k, b, i);
      }
    }
    forall c | c in m'
      ensures c in Classes(km, t')
    {
      if c == ClassOf(km, k) {
        assert Stored(t', h, f);
        ClassEquality(km, t'[h][f].key, k);
      } else {
        var b, i :| Stored(t, b, i) && c == ClassOf(km, t[b][i].key);
        assert Stored(t', b, i) && t'[b][i].key == t[b][i].key;
      }
    }
    AbsIs(km, t', m');
  }

  /** Where a pair that survives Remove(k) stood before, and where it stands afterwards. */
  function BeforeRemove<K, V>(km: KeyManager<K>, t: seq<Bin<K, V>>, k: K, b: int, i: int): int
    requires |t| == LAST_BIN
  {
    if b == km.hash(k) && i >= FindIn(km, t[km.hash(k)], k) then i + 1 else i
  }

  lemma RemovedFrom<K(!new), V>(km: KeyManager<K>, t: seq<Bin<K, V>>, k: K, b: int, i: int)
    requires TableWF(km, t) && Stored(RemoveTable(km, t, k), b, i)
    ensures Stored(t, b, BeforeRemove(km, t, k, b, i))
    ensures RemoveTable(km, t, k)[b][i] == t[b][BeforeRemove(km, t, k, b, i)]
    ensures ClassOf(km, RemoveTable(km, t, k)[b][i].key) != ClassOf(km, k)
  {
    var j := BeforeRemove(km, t, k, b, i);
    OthersDiffer(km, t, k, b, j);
    ClassEquality(km, t[b][j].key, k);
  }

  lemma RemovedTo<K(!new), V>(km: KeyManager<K>, t: seq<Bin<K, V>>, k: K, b: int, i: int) returns (j: int)
    requires TableWF(km, t) && Stored(t, b, i)
    requires ClassOf(km, t[b][i].key) != ClassOf(km, k)
    ensures Stored(RemoveTable(km, t, k), b, j) && RemoveTable(km, t, k)[b][j] == t[b][i]
  {
    ClassEquality(km, t[b][i].key, k);
    j := if b == km.hash(k) && i > FindIn(km, t[b], k) then i - 1 else i;
  }

  lemma SetGet<K(!new), V>(km: KeyManager<K>, t: seq<Bin<K, V>>, k: K, v: V)
    requires TableWF(km, t)
    ensures GetTable(km, SetTable(km, t, k, v), k) == Some(v)
  {
    SetRefines(km, t, k, v);
    GetRefines(km, SetTable(km, t, k, v), k);
  }

  /** Remove takes exactly the key's class out of the map. */
  lemma RemoveRefines<K(!new), V>(km: KeyManager<K>, t: seq<Bin<K, V>>, k: K)
    requires TableWF(km, t)
    ensures TableWF(km, RemoveTable(km, t, k))
    ensures Abs(km, RemoveTable(km, t, k)) == Abs(km, t) - {ClassOf(km, k)}
  {
    RemoveKeepsWF(km, t, k);
    var t': seq<Bin<K, V>> := RemoveTable(km, t, k);
    var m' := Abs(km, t) - {ClassOf(km, k)};
    forall b, i | Stored(t', b, i)
      ensures ClassOf(km, t'[b][i].key) in m' && m'[ClassOf(km, t'[b][i].key)] == t'[b][i].value
    {
      RemovedFrom(km, t, k, b, i);
      AbsAt(km, t, b, BeforeRemove(km, t, k, b, i));
    }
    forall c | c in m'
      ensures c in Classes(km, t')
    {
      var b, i :| Stored(t, b, i) && c == ClassOf(km, t[b][i].key);
      var j := RemovedTo(km, t, k, b, i);
    }
    AbsIs(km, t', m');
  }

  // ----- runs -----

  datatype Op<K, V> = OpSet(key: K, value: V) | OpIndex(key: K, fallback: V) | OpRemove(key: K) | OpClear

  function StepTable<K, V>(km: KeyManager<K>, t: seq<Bin<K, V>>, op: Op<K, V>): (r: seq<Bin<K, V>>)
    requires |t| == LAST_BIN
    ensures |r| == LAST_BIN
  {
    match op
    case OpSet(k, v) => SetTable(km, t, k, v)
    case OpIndex(k, d) => if GetTable(km, t, k) == None then SetTable(km, t, k, d) else t
    case OpRemove(k) => RemoveTable(km, t, k)
    case OpClear => EmptyTable()
  }

  ghost function StepMap<K(!new), V>(km: KeyManager<K>, m: map<iset<K>, V>, op: Op<K, V>): map<iset<K>, V> {
    match op
    case OpSet(k, v) => m[ClassOf(km, k) := v]
    case OpIndex(k, d) => if ClassOf(km, k) in m then m else m[ClassOf(km, k) := d]
    case OpRemove(k) => m - {ClassOf(km, k)}
    case OpClear => map[]
  }

  function RunTable<K, V>(km: KeyManager<K>, ops: seq<Op<K, V>>): (r: seq<Bin<K, V>>)
    ensures |r| == LAST_BIN
  {
    if ops == [] then EmptyTable() else StepTable(km, RunTable(km, ops[..|ops| - 1]), ops[|ops| - 1])
  }

  ghost function RunMap<K(!new), V>(km: KeyManager<K>, ops: seq<Op<K, V>>): map<iset<K>, V> {
    if ops == [] then map[] else StepMap(km, RunMap(km, ops[..|ops| - 1]), ops[|ops| - 1])
  }

  lemma EmptyRefines<K(!new), V>(km: KeyManager<K>)
    requires Lawful(km)
    ensures TableWF<K, V>(km, EmptyTable())
    ensures Abs<K, V>(km, EmptyTable()) == map[]
  {
    AbsIs<K, V>(km, EmptyTable(), map[]);
  }

  /** Every run over the bins is the same run over one finite map. */
  lemma {:induction false} RunRefines<K(!new), V>(km: KeyManager<K>, ops: seq<Op<K, V>>)
    requires Lawful(km)
    ensures TableWF(km, RunTable(km, ops))
    ensures Abs(km, RunTable(km, ops)) == RunMap(km, ops)
  {
    if ops == [] {
      EmptyRefines<K, V>(km);
    } else {
      RunRefines(km, ops[..|ops| - 1]);
      StepRefines(km, RunTable(km, ops[..|ops| - 1]), ops[|ops| - 1]);
    }
  }

  lemma StepRefines<K(!new), V>(km: KeyManager<K>, t: seq<Bin<K, V>>, op: Op<K, V>)
    requires TableWF(km, t)
    ensures TableWF(km, StepTable(km, t, op))
    ensures Abs(km, StepTable(km, t, op)) == StepMap(km, Abs(km, t), op)
  {
    match op
    case OpSet(k, v) => SetRefines(km, t, k, v);
    case OpIndex(k, d) =>
      GetRefines(km, t, k);
      SetRefines(km, t, k, d);
    case OpRemove(k) => RemoveRefines(km, t, k);
    case OpClear => EmptyRefines<K, V>(km);
  }

  // ----- iteration order -----

  /** The pairs of the bins below `b`, in bin order and, in a bin, in insertion order. */
  function Prefix<X>(t: seq<seq<X>>, b: nat): seq<X>
    requires b <= |t|
  {
    if b == 0 then [] else Prefix(t, b - 1) + t[b - 1]
  }

  /** Everything stored, in iteration order. */
  function Entries<X>(t: seq<seq<X>>): seq<X> {
    Prefix(t, |t|)
  }

  /** The iteration position of pair `i` of bin `b`. */
  function Position<X>(t: seq<seq<X>>, b: nat, i: nat): nat
    requires b <= |t|
  {
    |Prefix(t, b)| + i
  }

  lemma {:induction false} PrefixGrows<X>(t: seq<seq<X>>, b: nat, c: nat)
    requires b <= c <= |t|
    ensures Prefix(t, b) <= Prefix(t, c)
    decreases c
  {
    if b < c {
      PrefixGrows(t, b, c - 1);
    }
  }

  lemma EntryAt<X>(t: seq<seq<X>>, b: nat, i: nat)
    requires b < |t| && i < |t[b]|
    ensures Position(t, b, i) < |Entries(t)| && Entries(t)[Position(t, b, i)] == t[b][i]
  {
    PrefixGrows(t, b + 1, |t|);
    assert Prefix(t, b + 1)[|Prefix(t, b)| + i] == t[b][i];
  }

  lemma {:induction false} PrefixSkipsEmpty<X>(t: seq<seq<X>>, b: nat, c: nat)
    requires b <= c <= |t|
    requires forall d :: b <= d < c ==> t[d] == []
    ensures Prefix(t, b) == Prefix(t, c)
    decreases c
  {
    if b < c {
      PrefixSkipsEmpty(t, b, c - 1);
    }
  }

  lemma {:induction false} Located<X>(t: seq<seq<X>>, c: nat, p: nat) returns (b: nat, i: nat)
    requires c <= |t| && p < |Prefix(t, c)|
    ensures b < c && i < |t[b]| && p == Position(t, b, i)
    decreases c
  {
    if p < |Prefix(t, c - 1)| {
      b, i := Located(t, c - 1, p);
    } else {
      b, i := c - 1, p - |Prefix(t, c - 1)|;
    }
  }

  /** Different stored pairs have different positions, in bin order and then insertion order. */
  lemma PositionOrder<X>(t: seq<seq<X>>, b: nat, i: nat, c: nat, j: nat)
    requires b < |t| && i < |t[b]| && c < |t| && j < |t[c]|
    ensures Position(t, b, i) < Position(t, c, j) <==> b < c || (b == c && i < j)
  {
    if b < c {
      PrefixGrows(t, b + 1, c);
    } else if c < b {
      PrefixGrows(t, c + 1, b);
    }
  }

  /** (c, j) is where an iterator that leaves pair (b, i) arrives: the next pair, or the end. */
  ghost predicate Follows<X>(t: seq<seq<X>>, b: nat, i: nat, c: nat, j: nat)
    requires b < |t|
  {
    || (c == b && j == i + 1 && j < |t[b]|)
    || (b < c <= |t| && j == 0 && i + 1 >= |t[b]| && (forall d :: b < d < c ==> t[d] == []) && (c < |t| ==> t[c] != []))
  }

  lemma FollowsPosition<X>(t: seq<seq<X>>, b: nat, i: nat, c: nat, j: nat)
    requires b < |t| && i <= |t[b]| && Follows(t, b, i, c, j)
    ensures Position(t, c, j) == Position(t, b, i) + (if i < |t[b]| then 1 else 0)
  {
    if b < c {
      PrefixSkipsEmpty(t, b + 1, c);
    }
  }

  /** A table with the default key manager is iterated by the low byte of its keys. */
  lemma DefaultOrder<V>(t: seq<Bin<SizeT, V>>, p: nat, q: nat)
    requires TableWF(DefaultKeyManager(), t) && p < q < |Entries(t)|
    ensures Entries(t)[p].key % 256 <= Entries(t)[q].key % 256
  {
    var b, i := Located(t, |t|, p);
    var c, j := Located(t, |t|, q);
    EntryAt(t, b, i);
    EntryAt(t, c, j);
    PositionOrder(t, b, i, c, j);
    assert BinWF(DefaultKeyManager(), b, t[b]) && BinWF(DefaultKeyManager(), c, t[c]);
  }

  ghost function ClassesOf<K(!new), V>(km: KeyManager<K>, s: seq<Pair<K, V>>): set<iset<K>> {
    set p | 0 <= p < |s| :: ClassOf(km, s[p].key)
  }

  lemma ClassesLast<K(!new), V>(km: KeyManager<K>, s: seq<Pair<K, V>>)
    requires s != []
    ensures ClassesOf(km, s) == ClassesOf(km, s[..|s| - 1]) + {ClassOf(km, s[|s| - 1].key)}
  {
    var n := |s| - 1;
    forall p | 0 <= p < |s|
      ensures ClassOf(km, s[p].key) in ClassesOf(km, s[..n]) + {ClassOf(km, s[n].key)}
    {
      assert p < n ==> s[..n][p] == s[p];
    }
    forall p | 0 <= p < n
      ensures ClassOf(km, s[..n][p].key) in ClassesOf(km, s)
    {
      assert s[..n][p] == s[p];
    }
  }

  lemma {:induction false} ClassCount<K(!new), V>(km: KeyManager<K>, s: seq<Pair<K, V>>)
    requires forall p, q :: 0 <= p < q < |s| ==> ClassOf(km, s[p].key) != ClassOf(km, s[q].key)
    ensures |ClassesOf(km, s)| == |s|
  {
    if s != [] {
      var n := |s| - 1;
      ClassCount(km, s[..n]);
      ClassesLast(km, s);
      assert ClassOf(km, s[n].key) !in ClassesOf(km, s[..n]);
    }
  }

  /** Iteration meets every class of the map, each exactly once: Size() is the map's cardinality. */
  lemma EntriesEnumerate<K(!new), V>(km: KeyManager<K>, t: seq<Bin<K, V>>)
    requires TableWF(km, t)
    ensures forall p, q :: 0 <= p < q < |Entries(t)| ==>
              ClassOf(km, Entries(t)[p].key) != ClassOf(km, Entries(t)[q].key)
    ensures ClassesOf(km, Entries(t)) == Abs(km, t).Keys
    ensures forall p :: 0 <= p < |Entries(t)| ==>
              var c := ClassOf(km, Entries(t)[p].key);
              c in Abs(km, t) && Abs(km, t)[c] == Entries(t)[p].value
    ensures |Entries(t)| == |Abs(km, t)|
  {
    var es := Entries(t);
    forall p, q | 0 <= p < q < |es|
      ensures ClassOf(km, es[p].key) != ClassOf(km, es[q].key)
    {
      var b, i := Located(t, |t|, p);
      var c, j := Located(t, |t|, q);
      EntryAt(t, b, i);
      EntryAt(t, c, j);
      if ClassOf(km, es[p].key) == ClassOf(km, es[q].key) {
        StoredOnce(km, t, b, i, c, j);
      }
    }
    forall p | 0 <= p < |es|
      ensures ClassOf(km, es[p].key) in Abs(km, t) && Abs(km, t)[ClassOf(km, es[p].key)] == es[p].value
    {
      var b, i := Located(t, |t|, p);
      EntryAt(t, b, i);
      AbsAt(km, t, b, i);
    }
    forall c | c in Abs(km, t)
      ensures c in ClassesOf(km, es)
    {
      var b, i :| Stored(t, b, i) && c == ClassOf(km, t[b][i].key);
      EntryAt(t, b, i);
    }
    ClassCount(km, es);
    assert ClassesOf(km, es) == Abs(km, t).Keys;
  }

  lemma EntryCount<K(!new), V>(km: KeyManager<K>, t: seq<Bin<K, V>>)
    requires TableWF(km, t)
    ensures |Entries(t)| == |Abs(km, t)|
  {
    EntriesEnumerate(km, t);
  }

  lemma {:induction false} PrefixUpdate<X>(t: seq<seq<X>>, b: nat, bin: seq<X>, c: nat)
    requires b < |t| && c <= |t|
    ensures |Prefix(t[b := bin], c)| == |Prefix(t, c)| + (if b < c then |bin| - |t[b]| else 0)
    decreases c
  {
    if c > 0 {
      PrefixUpdate(t, b, bin, c - 1);
    }
  }

  lemma NothingBefore<X>(t: seq<seq<X>>, c: nat)
    requires c <= |t| && Prefix(t, c) == []
    ensures forall b :: 0 <= b < c ==> t[b] == []
  {
    forall b | 0 <= b < c
      ensures t[b] == []
    {
      PrefixGrows(t, b + 1, c);
    }
  }

  lemma NothingStored<K, V>(t: seq<Bin<K, V>>)
    requires |t| == LAST_BIN && Entries(t) == []
    ensures t == EmptyTable()
  {
    NothingBefore(t, LAST_BIN);
  }

  // ----- the order of insertion -----

  /** One list of pairs as callers see it grow: a new key comes last, a known one keeps its place. */
  function Put<K, V>(km: KeyManager<K>, s: seq<Pair<K, V>>, k: K, v: V): seq<Pair<K, V>> {
    if s == [] then [Pair(k, v)]
    else if km.Same(s[0].key, k) then [Pair(s[0].key, v)] + s[1..]
    else [s[0]] + Put(km, s[1..], k, v)
  }

  function Drop<K, V>(km: KeyManager<K>, s: seq<Pair<K, V>>, k: K): seq<Pair<K, V>> {
    if s == [] then []
    else if km.Same(s[0].key, k) then s[1..]
    else [s[0]] + Drop(km, s[1..], k)
  }

  predicate Has<K, V>(km: KeyManager<K>, s: seq<Pair<K, V>>, k: K) {
    exists i :: 0 <= i < |s| && km.Same(s[i].key, k)
  }

  function StepList<K, V>(km: KeyManager<K>, s: seq<Pair<K, V>>, op: Op<K, V>): seq<Pair<K, V>> {
    match op
    case OpSet(k, v) => Put(km, s, k, v)
    case OpIndex(k, d) => if Has(km, s, k) then s else Put(km, s, k, d)
    case OpRemove(k) => Drop(km, s, k)
    case OpClear => []
  }

  /** The pairs that a run leaves, in the order in which their keys were added. */
  function RunList<K, V>(km: KeyManager<K>, ops: seq<Op<K, V>>): seq<Pair<K, V>> {
    if ops == [] then [] else StepList(km, RunList(km, ops[..|ops| - 1]), ops[|ops| - 1])
  }

  /** Those of the pairs whose keys hash to `b`, in their order. */
  function WithHash<K, V>(km: KeyManager<K>, s: seq<Pair<K, V>>, b: nat): seq<Pair<K, V>> {
    if s == [] then []
    else if km.hash(s[0].key) == b then [s[0]] + WithHash(km, s[1..], b)
    else WithHash(km, s[1..], b)
  }

  lemma {:induction false} SetBinPuts<K, V>(km: KeyManager<K>, bin: Bin<K, V>, k: K, v: V)
    ensures SetBin(km, bin, k, v) == Put(km, bin, k, v)
  {
    if bin != [] && !km.Same(bin[0].key, k) {
      SetBinPuts(km, bin[1..], k, v);
      assert bin == [bin[0]] + bin[1..];
    }
  }

  lemma {:induction false} RemoveBinDrops<K, V>(km: KeyManager<K>, bin: Bin<K, V>, k: K)
    ensures RemoveBin(km, bin, k) == Drop(km, bin, k)
  {
    if bin != [] && !km.Same(bin[0].key, k) {
      RemoveBinDrops(km, bin[1..], k);
      assert bin == [bin[0]] + bin[1..];
    }
  }

  lemma {:induction false} PutWithHash<K(!new), V>(km: KeyManager<K>, s: seq<Pair<K, V>>, k: K, v: V, b: nat)
    requires Lawful(km)
    ensures WithHash(km, Put(km, s, k, v), b)
         == if b == km.hash(k) then Put(km, WithHash(km, s, b), k, v) else WithHash(km, s, b)
  {
    if s != [] {
      var s' := Put(km, s, k, v);
      if km.Same(s[0].key, k) {
        assert s'[1..] == s[1..];
      } else {
        PutWithHash(km, s[1..], k, v, b);
        assert s'[1..] == Put(km, s[1..], k, v);
      }
      var rest := WithHash(km, s[1..], b);
      assert ([s[0]] + rest)[1..] == rest;
    }
  }

  lemma {:induction false} DropWithHash<K(!new), V>(km: KeyManager<K>, s: seq<Pair<K, V>>, k: K, b: nat)
    requires Lawful(km)
    ensures WithHash(km, Drop(km, s, k), b)
         == if b == km.hash(k) then Drop(km, WithHash(km, s, b), k) else WithHash(km, s, b)
  {
    if s != [] {
      var s' := Drop(km, s, k);
      if !km.Same(s[0].key, k) {
        DropWithHash(km, s[1..], k, b);
        assert s'[1..] == Drop(km, s[1..], k);
      }
      var rest := WithHash(km, s[1..], b);
      assert ([s[0]] + rest)[1..] == rest;
    }
  }

  lemma {:induction false} HasWithHash<K(!new), V>(km: KeyManager<K>, s: seq<Pair<K, V>>, k: K)
    requires Lawful(km)
    ensures Has(km, s, k) <==> FindIn(km, WithHash(km, s, km.hash(k)), k) < |WithHash(km, s, km.hash(k))|
  {
    if s != [] {
      var rest := WithHash(km, s[1..], km.hash(k));
      HasWithHash(km, s[1..], k);
      assert s == [s[0]] + s[1..] && ([s[0]] + rest)[1..] == rest;
      assert Has(km, s, k) <==> km.Same(s[0].key, k) || Has(km, s[1..], k);
    }
  }

  /** The bins hold the pairs of the list, each bin those with its hash. */
  ghost predicate Spread<K, V>(km: KeyManager<K>, t: seq<Bin<K, V>>, s: seq<Pair<K, V>>) {
    |t| == LAST_BIN && forall b :: 0 <= b < LAST_BIN ==> t[b] == WithHash(km, s, b)
  }

  lemma StepSpreads<K(!new), V>(km: KeyManager<K>, t: seq<Bin<K, V>>, s: seq<Pair<K, V>>, op: Op<K, V>)
    requires Lawful(km) && Spread(km, t, s)
    ensures Spread(km, StepTable(km, t, op), StepList(km, s, op))
  {
    forall b | 0 <= b < LAST_BIN
      ensures StepTable(km, t, op)[b] == WithHash(km, StepList(km, s, op), b)
    {
      match op
      case OpSet(k, v) =>
        PutWithHash(km, s, k, v, b);
        SetBinPuts(km, t[km.hash(k)], k, v);
      case OpIndex(k, d) =>
        HasWithHash(km, s, k);
        PutWithHash(km, s, k, d, b);
        SetBinPuts(km, t[km.hash(k)], k, d);
      case OpRemove(k) =>
        DropWithHash(km, s, k, b);
        RemoveBinDrops(km, t[km.hash(k)], k);
      case OpClear =>
    }
  }

  /** After every run each bin holds, in the order in which their keys were added, the pairs with its hash. */
  lemma {:induction false} RunSpreads<K(!new), V>(km: KeyManager<K>, ops: seq<Op<K, V>>)
    requires Lawful(km)
    ensures Spread(km, RunTable(km, ops), RunList(km, ops))
  {
    if ops != [] {
      RunSpreads(km, ops[..|ops| - 1]);
      StepSpreads(km, RunTable(km, ops[..|ops| - 1]), RunList(km, ops[..|ops| - 1]), ops[|ops| - 1]);
    }
  }

  // ----- copying a table entry by entry -----

  /** The part of `t` that iteration has passed when it stands at pair `i` of bin `b`. */
  ghost function Passed<K, V>(t: seq<Bin<K, V>>, b: nat, i: nat): seq<Bin<K, V>>
    requires |t| == LAST_BIN && b <= LAST_BIN && (b < LAST_BIN ==> i <= |t[b]|)
  {
    seq(LAST_BIN, c requires 0 <= c < LAST_BIN => if c < b then t[c] else if c == b then t[b][..i] else [])
  }

  lemma CopyStep<K(!new), V>(km: KeyManager<K>, t: seq<Bin<K, V>>, b: nat, i: nat)
    requires TableWF(km, t) && b < LAST_BIN && i < |t[b]|
    ensures SetTable(km, Passed(t, b, i), t[b][i].key, t[b][i].value) == Passed(t, b, i + 1)
  {
    var k := t[b][i].key;
    assert BinWF(km, b, t[b]);
    assert FindIn(km, t[b][..i], k) == i;
    assert t[b][..i + 1] == t[b][..i] + [t[b][i]];
  }

  lemma CopyStart<K, V>(t: seq<Bin<K, V>>, b: nat, i: nat)
    requires |t| == LAST_BIN && b <= LAST_BIN && (b < LAST_BIN ==> i <= |t[b]|)
    requires Position(t, b, i) == 0
    ensures Passed(t, b, i) == EmptyTable()
  {
    NothingBefore(t, b);
  }

  lemma CopyEnd<K, V>(t: seq<Bin<K, V>>)
    requires |t| == LAST_BIN
    ensures Passed(t, LAST_BIN, 0) == t
  {
  }

  /** Copying the pair an iterator is at, and then stepping, keeps the copy equal to what was passed. */
  lemma CopyNext<K(!new), V>(km: KeyManager<K>, t: seq<Bin<K, V>>, b: nat, i: nat, c: nat, j: nat)
    requires TableWF(km, t) && b < LAST_BIN && i < |t[b]| && c <= LAST_BIN
    requires Follows(t, b, i, c, j)
    ensures c < LAST_BIN ==> j <= |t[c]|
    ensures SetTable(km, Passed(t, b, i), t[b][i].key, t[b][i].value) == Passed(t, c, j)
  {
    CopyStep(km, t, b, i);
    if b < c {
      CopySkip(t, b, c);
    }
  }

  lemma CopySkip<K, V>(t: seq<Bin<K, V>>, b: nat, c: nat)
    requires |t| == LAST_BIN && b < c <= LAST_BIN
    requires forall d :: b < d < c ==> t[d] == []
    ensures Passed(t, b, |t[b]|) == Passed(t, c, 0)
  {
    assert t[b][..|t[b]|] == t[b];
  }

  /** Setting those of the pairs whose turn came out well, one after another, on an empty table. */
  function SetSome<K, V>(km: KeyManager<K>, pairs: seq<Pair<K, V>>, oks: seq<bool>): (r: seq<Bin<K, V>>)
    requires |oks| <= |pairs|
    ensures |r| == LAST_BIN
    decreases |oks|
  {
    if oks == [] then EmptyTable()
    else
      var n := |oks| - 1;
      var before := SetSome(km, pairs, oks[..n]);
      if oks[n] then SetTable(km, before, pairs[n].key, pairs[n].value) else before
  }

  ghost predicate AllWell(oks: seq<bool>) {
    forall p :: 0 <= p < |oks| ==> oks[p]
  }

  lemma SetOneMore<K, V>(km: KeyManager<K>, pairs: seq<Pair<K, V>>, oks: seq<bool>, ok: bool)
    requires |oks| < |pairs|
    ensures var t := SetSome(km, pairs, oks);
            SetSome(km, pairs, oks + [ok]) == if ok then SetTable(km, t, pairs[|oks|].key, pairs[|oks|].value) else t
  {
    assert (oks + [ok])[..|oks|] == oks;
  }

  /** The place of position `n`: a stored pair, or the end. */
  lemma PlaceOf<X>(t: seq<seq<X>>, n: nat) returns (b: nat, i: nat)
    requires |t| == LAST_BIN && n <= |Entries(t)|
    ensures if n < |Entries(t)| then b < LAST_BIN && i < |t[b]| else b == LAST_BIN && i == 0
    ensures n == Position(t, b, i)
  {
    if n < |Entries(t)| {
      b, i := Located(t, LAST_BIN, n);
    } else {
      b, i := LAST_BIN, 0;
    }
  }

  /** Between two bins that follow each other in iteration order nothing is stored. */
  lemma NothingBetween<X>(t: seq<seq<X>>, b: nat, c: nat)
    requires b < c <= |t|
    ensures |Prefix(t, c)| >= |Prefix(t, b)| + |t[b]|
    ensures |Prefix(t, c)| == |Prefix(t, b)| + |t[b]| ==> forall d :: b < d < c ==> t[d] == []
  {
    PrefixGrows(t, b + 1, c);
    forall d | b < d < c && |Prefix(t, c)| == |Prefix(t, b + 1)|
      ensures t[d] == []
    {
      PrefixGrows(t, b + 1, d);
      PrefixGrows(t, d + 1, c);
    }
  }

  /** The place one position further on is the one an iterator arrives at. */
  lemma NextPlace<X>(t: seq<seq<X>>, b: nat, i: nat, c: nat, j: nat)
    requires |t| == LAST_BIN && b < |t| && i < |t[b]|
    requires c <= |t| && (if c < |t| then j < |t[c]| else j == 0)
    requires Position(t, c, j) == Position(t, b, i) + 1
    ensures Follows(t, b, i, c, j)
  {
    if c < b {
      NothingBetween(t, c, b);
    } else if b < c {
      NothingBetween(t, b, c);
    }
  }

  /** `copy` is what iteration has passed when it is at position `n`. */
  ghost predicate CopiedTo<K, V>(t: seq<Bin<K, V>>, copy: seq<Bin<K, V>>, n: nat)
    requires |t| == LAST_BIN
  {
    exists b: nat, i: nat ::
      && b <= LAST_BIN && (if b < LAST_BIN then i < |t[b]| else i == 0)
      && Position(t, b, i) == n && copy == Passed(t, b, i)
  }

  lemma CopiedNext<K(!new), V>(km: KeyManager<K>, t: seq<Bin<K, V>>, copy: seq<Bin<K, V>>, n: nat)
    requires TableWF(km, t) && n < |Entries(t)| && CopiedTo(t, copy, n)
    ensures CopiedTo(t, SetTable(km, copy, Entries(t)[n].key, Entries(t)[n].value), n + 1)
  {
    var b: nat, i: nat :|
      && b <= LAST_BIN && (if b < LAST_BIN then i < |t[b]| else i == 0)
      && Position(t, b, i) == n && copy == Passed(t, b, i);
    assert b < LAST_BIN;
    EntryAt(t, b, i);
    var c, j := PlaceOf(t, n + 1);
    NextPlace(t, b, i, c, j);
    CopyNext(km, t, b, i, c, j);
  }

  /** While nothing fails, the copy is what iteration has passed. */
  lemma {:induction false} NothingLeftOut<K(!new), V>(km: KeyManager<K>, t: seq<Bin<K, V>>, oks: seq<bool>)
    requires TableWF(km, t) && |oks| <= |Entries(t)| && AllWell(oks)
    ensures CopiedTo(t, SetSome(km, Entries(t), oks), |oks|)
    decreases |oks|
  {
    if oks == [] {
      var b, i := PlaceOf(t, 0);
      CopyStart(t, b, i);
    } else {
      var n := |oks| - 1;
      assert oks == oks[..n] + [true];
      NothingLeftOut(km, t, oks[..n]);
      CopiedNext(km, t, SetSome(km, Entries(t), oks[..n]), n);
      SetOneMore(km, Entries(t), oks[..n], true);
    }
  }

  /** Everything `m` says, `n` says. */
  ghost predicate Within<C(!new), V>(m: map<C, V>, n: map<C, V>) {
    forall c :: c in m ==> c in n && m[c] == n[c]
  }

  /** The copy holds nothing but what the table holds, and at most `n` pairs. */
  ghost predicate Part<K(!new), V>(km: KeyManager<K>, t: seq<Bin<K, V>>, copy: seq<Bin<K, V>>, n: nat) {
    TableWF(km, copy) && Within(Abs(km, copy), Abs(km, t)) && |Abs(km, copy)| <= n
  }

  function Successes(oks: seq<bool>): (r: nat)
    ensures r <= |oks|
    ensures r == |oks| <==> AllWell(oks)
  {
    if oks == [] then 0
    else
      var n := |oks| - 1;
      Successes(oks[..n]) + (if oks[n] then 1 else 0)
  }

  /** Copying some pairs of a table yields part of its map, no larger than the number of pairs copied. */
  lemma {:induction false} SomeIsPart<K(!new), V>(km: KeyManager<K>, t: seq<Bin<K, V>>, oks: seq<bool>)
    requires TableWF(km, t) && |oks| <= |Entries(t)|
    ensures Part(km, t, SetSome(km, Entries(t), oks), Successes(oks))
    decreases |oks|
  {
    if oks == [] {
      EmptyRefines<K, V>(km);
    } else {
      var n := |oks| - 1;
      SomeIsPart(km, t, oks[..n]);
      if oks[n] {
        OneMoreIsPart(km, t, SetSome(km, Entries(t), oks[..n]), n, Successes(oks[..n]));
      }
    }
  }

  lemma OneMoreIsPart<K(!new), V>(km: KeyManager<K>, t: seq<Bin<K, V>>, copy: seq<Bin<K, V>>, n: nat, size: nat)
    requires TableWF(km, t) && n < |Entries(t)| && Part(km, t, copy, size)
    ensures Part(km, t, SetTable(km, copy, Entries(t)[n].key, Entries(t)[n].value), size + 1)
  {
    var k, v := Entries(t)[n].key, Entries(t)[n].value;
    var b, i := Located(t, LAST_BIN, n);
    EntryAt(t, b, i);
    AbsAt(km, t, b, i);
    SetRefines(km, copy, k, v);
    MapGrows(Abs(km, copy), ClassOf(km, k), v);
  }

  lemma MapGrows<C, V>(m: map<C, V>, c: C, v: V)
    ensures |m[c := v]| <= |m| + 1
  {
    assert m[c := v].Keys == m.Keys + {c};
  }

  /** Copying a table pair by pair yields the table itself, bins and order included, exactly when nothing fails. */
  lemma CopyIsTable<K(!new), V>(km: KeyManager<K>, t: seq<Bin<K, V>>, oks: seq<bool>)
    requires TableWF(km, t) && |oks| == |Entries(t)|
    ensures SetSome(km, Entries(t), oks) == t <==> AllWell(oks)
  {
    SomeIsPart(km, t, oks);
    EntryCount(km, t);
    if AllWell(oks) {
      NothingLeftOut(km, t, oks);
      AllCopied(t, SetSome(km, Entries(t), oks));
    }
  }

  lemma AllCopied<K, V>(t: seq<Bin<K, V>>, copy: seq<Bin<K, V>>)
    requires |t| == LAST_BIN && CopiedTo(t, copy, |Entries(t)|)
    ensures copy == t
  {
    var b: nat, i: nat :|
      && b <= LAST_BIN && (if b < LAST_BIN then i < |t[b]| else i == 0)
      && Position(t, b, i) == |Entries(t)| && copy == Passed(t, b, i);
    if b < LAST_BIN {
      EntryAt(t, b, i);
    }
    CopyEnd(t);
  }

  // ----- which pairs a copy gets -----

  /** A table with the bins that exist: only making a bin and making a node take memory. */
  datatype Store<K, V> = Store(table: seq<Bin<K, V>>, made: set<nat>)

  /** Set, with the memory it may need. */
  function SetStore<K, V>(km: KeyManager<K>, s: Store<K, V>, k: K, v: V, binOk: bool, nodeOk: bool): Store<K, V>
    requires |s.table| == LAST_BIN
  {
    var made := if binOk then s.made + {km.hash(k)} else s.made;
    var stored := GetTable(km, s.table, k) != None || (km.hash(k) in made && nodeOk);
    Store(if stored then SetTable(km, s.table, k, v) else s.table, made)
  }

  /** The memory of a copy: the bins made before it, and for each turn whether a bin and a node can be had. */
  datatype Memory = Memory(had: set<nat>, bins: seq<bool>, nodes: seq<bool>)

  /** The copy after `n` pairs. */
  function CopyAfter<K, V>(km: KeyManager<K>, es: seq<Pair<K, V>>, mem: Memory, n: nat): (r: Store<K, V>)
    requires n <= |es|
    ensures |r.table| == LAST_BIN
  {
    if n == 0 then Store(EmptyTable(), mem.had)
    else
      var pair := es[n - 1];
      var before := CopyAfter(km, es, mem, n - 1);
      SetStore(km, before, pair.key, pair.value, Granted(mem.bins, n - 1), Granted(mem.nodes, n - 1))
  }

  /** Bin `b` existed before the copy, or could be made for one of the first `n` pairs. */
  ghost predicate BinBy<K, V>(km: KeyManager<K>, es: seq<Pair<K, V>>, mem: Memory, b: nat, n: nat)
    requires n <= |es|
  {
    b in mem.had || exists q :: 0 <= q < n && Granted(mem.bins, q) && km.hash(es[q].key) == b
  }

  /** Pair `p` finds the memory it needs: a node, and a bin that exists by then. */
  ghost predicate Provided<K, V>(km: KeyManager<K>, es: seq<Pair<K, V>>, mem: Memory, p: nat)
    requires p < |es|
  {
    Granted(mem.nodes, p) && BinBy(km, es, mem, km.hash(es[p].key), p + 1)
  }

  ghost function Provisions<K, V>(km: KeyManager<K>, es: seq<Pair<K, V>>, mem: Memory, n: nat): (r: seq<bool>)
    requires n <= |es|
    ensures |r| == n && forall p :: 0 <= p < n ==> r[p] == Provided(km, es, mem, p)
  {
    seq(n, p requires 0 <= p < n => Provided(km, es, mem, p))
  }

  lemma {:induction false} BinsMade<K, V>(km: KeyManager<K>, es: seq<Pair<K, V>>, mem: Memory, n: nat, b: nat)
    requires n <= |es|
    ensures b in CopyAfter(km, es, mem, n).made <==> BinBy(km, es, mem, b, n)
  {
    if n > 0 {
      BinsMade(km, es, mem, n - 1, b);
    }
  }

  /** The classes of a partial copy are those of the pairs it was made from. */
  lemma {:induction false} SomeClasses<K(!new), V>(km: KeyManager<K>, t: seq<Bin<K, V>>, oks: seq<bool>, c: iset<K>)
    requires TableWF(km, t) && |oks| <= |Entries(t)|
    requires c in Abs(km, SetSome(km, Entries(t), oks))
    ensures exists q :: 0 <= q < |oks| && c == ClassOf(km, Entries(t)[q].key)
    decreases |oks|
  {
    if oks == [] {
      EmptyRefines<K, V>(km);
    } else {
      var n := |oks| - 1;
      var before := SetSome(km, Entries(t), oks[..n]);
      SomeIsPart(km, t, oks[..n]);
      SetRefines(km, before, Entries(t)[n].key, Entries(t)[n].value);
      if c in Abs(km, before) {
        SomeClasses(km, t, oks[..n], c);
      } else {
        assert c == ClassOf(km, Entries(t)[n].key);
      }
    }
  }

  /** The next pair's key is not in the copy yet, so Set has to add it. */
  lemma NotYetCopied<K(!new), V>(km: KeyManager<K>, t: seq<Bin<K, V>>, oks: seq<bool>)
    requires TableWF(km, t) && |oks| < |Entries(t)|
    ensures GetTable(km, SetSome(km, Entries(t), oks), Entries(t)[|oks|].key) == None
  {
    var copy, k := SetSome(km, Entries(t), oks), Entries(t)[|oks|].key;
    SomeIsPart(km, t, oks);
    GetRefines(km, copy, k);
    if ClassOf(km, k) in Abs(km, copy) {
      SomeClasses(km, t, oks, ClassOf(km, k));
      EntriesEnumerate(km, t);
      assert false;
    }
  }

  /** What Set does with the next pair: it adds the pair if there is memory, and nothing else. */
  lemma NextStored<K(!new), V>(km: KeyManager<K>, t: seq<Bin<K, V>>, oks: seq<bool>, s: Store<K, V>,
                               binOk: bool, nodeOk: bool)
    requires TableWF(km, t) && |oks| < |Entries(t)| && s.table == SetSome(km, Entries(t), oks)
    ensures var pair := Entries(t)[|oks|];
            var s' := SetStore(km, s, pair.key, pair.value, binOk, nodeOk);
            s'.table == SetSome(km, Entries(t), oks + [km.hash(pair.key) in s'.made && nodeOk])
  {
    var pair := Entries(t)[|oks|];
    var s' := SetStore(km, s, pair.key, pair.value, binOk, nodeOk);
    NotYetCopied(km, t, oks);
    SetOneMore(km, Entries(t), oks, km.hash(pair.key) in s'.made && nodeOk);
  }

  /** The copy holds the pairs that found their memory, and only those. */
  lemma {:induction false} CopyHolds<K(!new), V>(km: KeyManager<K>, t: seq<Bin<K, V>>, mem: Memory, n: nat)
    requires TableWF(km, t) && n <= |Entries(t)|
    ensures CopyAfter(km, Entries(t), mem, n).table == SetSome(km, Entries(t), Provisions(km, Entries(t), mem, n))
  {
    if n > 0 {
      var es := Entries(t);
      var oks := Provisions(km, es, mem, n - 1);
      CopyHolds(km, t, mem, n - 1);
      NextStored(km, t, oks, CopyAfter(km, es, mem, n - 1), Granted(mem.bins, n - 1), Granted(mem.nodes, n - 1));
      BinsMade(km, es, mem, n, km.hash(es[n - 1].key));
      assert Provisions(km, es, mem, n) == oks + [Provided(km, es, mem, n - 1)];
    }
  }

  /** The copy is the table itself, bins and order included, exactly when every pair finds its memory. */
  lemma CopyIsExact<K(!new), V>(km: KeyManager<K>, t: seq<Bin<K, V>>, mem: Memory)
    requires TableWF(km, t)
    ensures CopyAfter(km, Entries(t), mem, |Entries(t)|).table == t
       <==> forall p :: 0 <= p < |Entries(t)| ==> Provided(km, Entries(t), mem, p)
  {
    CopyHolds(km, t, mem, |Entries(t)|);
    CopyIsTable(km, t, Provisions(km, Entries(t), mem, |Entries(t)|));
  }

  // ----- the copy, stage by stage -----

  ghost predicate StageOk<K, V>(km: KeyManager<K>, es: seq<Pair<K, V>>, binOk: seq<bool>, nodeOk: seq<bool>,
                                stages: seq<Store<K, V>>, n: nat)
  {
    && n < |es| && n + 1 < |stages| && |stages[n].table| == LAST_BIN
    && stages[n + 1] == SetStore(km, stages[n], es[n].key, es[n].value, Granted(binOk, n), Granted(nodeOk, n))
  }

  /** What the copy is before and after each pair. */
  ghost predicate Staged<K, V>(km: KeyManager<K>, es: seq<Pair<K, V>>, binOk: seq<bool>, nodeOk: seq<bool>,
                               stages: seq<Store<K, V>>)
  {
    && |stages| == |es| + 1
    && forall n {:trigger StageOk(km, es, binOk, nodeOk, stages, n)} ::
         0 <= n < |es| ==> StageOk(km, es, binOk, nodeOk, stages, n)
  }

  ghost function Stages<K, V>(km: KeyManager<K>, es: seq<Pair<K, V>>, mem: Memory): (r: seq<Store<K, V>>)
    ensures |r| == |es| + 1 && r[0] == Store(EmptyTable(), mem.had) && r[|es|] == CopyAfter(km, es, mem, |es|)
    ensures Staged(km, es, mem.bins, mem.nodes, r)
  {
    seq(|es| + 1, n requires 0 <= n <= |es| => CopyAfter(km, es, mem, n))
  }
}
