/** The growable array of XnArray.h. */
module XnArray {
  import opened XnStatus
  import opened XnUInt32

  const BASE_SIZE: nat := 8

  /** The largest size that the rounding in Reserve can serve. */
  const MAX_SIZE: nat := 0x8000_0000

  /** `s` made `n` elements long: cut, or extended with `fill`. */
  function Resized<T>(s: seq<T>, n: nat, fill: T): (r: seq<T>)
    ensures |r| == n
    ensures forall i :: 0 <= i < n ==> r[i] == if i < |s| then s[i] else fill
  {
    seq(n, i requires i >= 0 => if i < |s| then s[i] else fill)
  }

  class Array<T(0)> {
    var data: array<T>
    var size: nat
    var capacity: nat
    /** How many elements Reserve has copied since construction or Clear. */
    ghost var copies: nat
    /** An element beyond the end of the buffer has been written. */
    ghost var overrun: bool

    ghost predicate Valid()
      reads this
    {
      data.Length == capacity < UINT32_VALUES && size <= capacity && !overrun
    }

    ghost function Contents(): seq<T>
      requires Valid()
      reads this, data
    {
      data[..size]
    }

    /** The array holds `n` elements or can be made to: for all other sizes Reserve computes 0. */
    predicate Fits(n: nat)
      reads this
    {
      n <= MAX_SIZE || n <= capacity
    }

    /** An array, or an empty one whose buffer could not be had: Init records the base size without looking. */
    ghost predicate Usable()
      reads this
    {
      Valid() || (data.Length == 0 == size < capacity < UINT32_VALUES && !overrun)
    }

    constructor (baseSize: UInt32, baseOk: bool)
      ensures Usable() && fresh(data) && (Valid() <==> baseOk || baseSize == 0)
      ensures size == 0 && capacity == baseSize && copies == 0
    {
      data := new T[if baseOk then baseSize else 0];
      size := 0;
      capacity := baseSize;
      copies := 0;
      overrun := false;
    }

    /** `m_pData[i] = val`, for an index that may lie beyond the buffer. */
    method Store(i: nat, val: T)
      modifies this`overrun, data
      ensures i < data.Length ==> data[..] == old(data[..])[i := val] && overrun == old(overrun)
      ensures i >= data.Length ==> data[..] == old(data[..]) && overrun
    {
      if i < data.Length {
        data[i] := val;
      } else {
        overrun := true;
      }
    }

    /** Calculates the next power of two by smearing the highest bit downwards. */
    method RoundUp(n: UInt32) returns (r: UInt32)
      requires n >= 1
      ensures r == Wrap(Capacity(n))
    {
      var m: nat := n - 1;
      m := Or(Shr(m, 1), m);
      m := Or(Shr(m, 2), m);
      m := Or(Shr(m, 4), m);
      m := Or(Shr(m, 8), m);
      m := Or(Shr(m, 16), m);
      r := Wrap(m + 1);
      NextPowerModulo(n);
    }

    /**
     * Replaces the buffer by one that is large enough and copies the elements; nothing changes when allocation
     * fails. A size that does not fit gives an empty buffer, and the elements are copied beyond its end.
     */
    method Reserve(n: UInt32, allocOk: bool) returns (st: Status)
      requires Usable()
      modifies this
      ensures data == old(data) || fresh(data)
      ensures st == if n <= old(capacity) || allocOk then OK else ALLOC_FAILED
      ensures Valid() <==> if n <= old(capacity) || !allocOk then old(Valid()) else old(Fits(n)) || size == 0
      ensures size == old(size) && (old(Valid()) && Valid() ==> Contents() == old(Contents()))
      ensures n <= old(capacity) || !allocOk ==> data == old(data) && capacity == old(capacity) && copies == old(copies)
      ensures n > old(capacity) && allocOk ==> capacity == data.Length == if old(Fits(n)) then Capacity(n) else 0
      ensures n > old(capacity) && allocOk && old(Fits(n)) ==> capacity >= n && copies == old(copies) + size
    {
      if n > capacity {
        WrappedPower(n);
        var newSize := RoundUp(n);
        if !allocOk {
          return ALLOC_FAILED;
        }
        var newData := new T[newSize];
        var i := 0;
        while i < size
          invariant unchanged(`data, `size, `capacity, `copies) && unchanged(data)
          invariant 0 <= i <= size && overrun == (i > newSize)
          invariant i <= newSize ==> newData[..i] == data[..i]
        {
          if i < newData.Length {
            newData[i] := data[i];
          } else {
            overrun := true;
          }
          i := i + 1;
        }
        copies := copies + size;
        data := newData;
        capacity := newSize;
      }
      return OK;
    }

    /** Grows to `n` elements; what the added elements hold is not determined. */
    method SetMinSize(n: UInt32, allocOk: bool) returns (st: Status)
      requires Usable()
      modifies this
      ensures data == old(data) || fresh(data)
      ensures st == if n <= old(capacity) || allocOk then OK else ALLOC_FAILED
      ensures Valid() <==> if n <= old(capacity) || !allocOk then old(Valid()) else old(Fits(n))
      ensures st != OK ==> size == old(size) && (Valid() ==> Contents() == old(Contents()))
      ensures st != OK ==> capacity == old(capacity) && copies == old(copies)
      ensures st == OK ==> size == if n > old(size) then n else old(size)
      ensures st == OK && Valid() && old(Valid()) ==> old(Contents()) <= Contents()
      ensures st == OK && n <= old(capacity) ==> capacity == old(capacity) && copies == old(copies)
      ensures st == OK && n > old(capacity) && old(Fits(n)) ==>
                capacity == Capacity(n) && copies == old(copies) + old(size)
      ensures st == OK && !old(Fits(n)) ==> data.Length == capacity == 0
    {
      if n > size {
        st := Reserve(n, allocOk);
        if st != OK {
          return;
        }
        size := n;
      }
      return OK;
    }

    /** Grows to `n` elements, the added ones holding `fill`. */
    method SetMinSizeFill(n: UInt32, fill: T, allocOk: bool) returns (st: Status)
      requires Valid()
      modifies this, data
      ensures data == old(data) || fresh(data)
      ensures st == if n <= old(capacity) || allocOk then OK else ALLOC_FAILED
      ensures Valid() <==> st != OK || old(Fits(n))
      ensures st != OK ==> Contents() == old(Contents())
      ensures st == OK && old(Fits(n)) ==>
                Contents() == if n > old(size) then Resized(old(Contents()), n, fill) else old(Contents())
      ensures st != OK || n <= old(capacity) ==> capacity == old(capacity)
      ensures st == OK && n > old(capacity) && old(Fits(n)) ==> capacity == Capacity(n)
      ensures st == OK && !old(Fits(n)) ==> data.Length == capacity == 0
    {
      if n > size {
        st := Reserve(n, allocOk);
        if st != OK {
          return;
        }
        ghost var fits := old(Fits(n));
        ghost var reserved := capacity;
        var i := size;
        while i < n
          invariant old(size) == size <= i <= n && data.Length == capacity == reserved
          invariant data == old(data) || fresh(data)
          invariant fits ==> n <= data.Length && !overrun && data[..size] == old(Contents())
          invariant fits ==> forall j :: size <= j < i ==> data[j] == fill
        {
          Store(i, fill);
          i := i + 1;
        }
        size := n;
      }
      return OK;
    }

    method SetSize(n: UInt32, allocOk: bool) returns (st: Status)
      requires Usable()
      modifies this
      ensures data == old(data) || fresh(data)
      ensures st == if n <= old(capacity) || allocOk then OK else ALLOC_FAILED
      ensures Valid() <==> if n <= old(capacity) || !allocOk then old(Valid()) else old(Fits(n))
      ensures st != OK ==> size == old(size) && capacity == old(capacity) && (Valid() ==> Contents() == old(Contents()))
      ensures st == OK ==> size == n
      ensures st == OK && Valid() && old(Valid()) ==>
                forall i :: 0 <= i < n && i < old(size) ==> Contents()[i] == old(Contents())[i]
      ensures st == OK && old(Fits(n)) ==> capacity == if n > old(capacity) then Capacity(n) else old(capacity)
      ensures st == OK && !old(Fits(n)) ==> data.Length == capacity == 0
    {
      st := SetMinSize(n, allocOk);
      if st != OK {
        return;
      }
      size := n;
    }

    method SetSizeFill(n: UInt32, fill: T, allocOk: bool) returns (st: Status)
      requires Valid()
      modifies this, data
      ensures data == old(data) || fresh(data)
      ensures st == if n <= old(capacity) || allocOk then OK else ALLOC_FAILED
      ensures Valid() <==> st != OK || old(Fits(n))
      ensures Valid() ==> Contents() == if st == OK then Resized(old(Contents()), n, fill) else old(Contents())
      ensures Valid() ==> capacity == if st == OK && n > old(capacity) then Capacity(n) else old(capacity)
    {
      st := SetMinSizeFill(n, fill, allocOk);
      if st != OK {
        return;
      }
      size := n;
    }

    /**
     * Sets one element; a gap that this opens holds arbitrary values. The size asked for is `index + 1`, which
     * for the last index wraps to 0, so that nothing grows.
     */
    method Set(index: UInt32, val: T, allocOk: bool) returns (st: Status)
      requires Valid()
      modifies this, data
      ensures data == old(data) || fresh(data)
      ensures st == if index < old(capacity) || allocOk || index == 0xFFFF_FFFF then OK else ALLOC_FAILED
      ensures Valid() <==> st != OK || old(Fits(index + 1))
      ensures st != OK ==> size == old(size) && Contents() == old(Contents())
      ensures st != OK ==> capacity == old(capacity) && copies == old(copies)
      ensures st == OK && old(Fits(index + 1)) ==> index < |Contents()| && Contents()[index] == val
      ensures st == OK && old(Fits(index + 1)) ==> size == if index >= old(size) then index + 1 else old(size)
      ensures st == OK && old(Fits(index + 1)) ==>
                forall i :: 0 <= i < old(size) && i != index ==> Contents()[i] == old(Contents())[i]
      ensures st == OK && index < old(capacity) ==> capacity == old(capacity) && copies == old(copies)
      ensures st == OK && index >= old(capacity) && old(Fits(index + 1)) ==>
                capacity == Capacity(index + 1) && copies == old(copies) + old(size)
    {
      st := SetMinSize(Wrap(index + 1), allocOk);
      if st != OK {
        return;
      }
      ghost var held := if Valid() then Contents() else [];
      Store(index, val);
      assert old(Fits(index + 1)) ==> Contents() == held[index := val];
    }

    method SetFill(index: UInt32, val: T, fill: T, allocOk: bool) returns (st: Status)
      requires Valid()
      modifies this, data
      ensures data == old(data) || fresh(data)
      ensures st == if index < old(capacity) || allocOk || index == 0xFFFF_FFFF then OK else ALLOC_FAILED
      ensures Valid() <==> st != OK || old(Fits(index + 1))
      ensures st != OK ==> Contents() == old(Contents()) && capacity == old(capacity)
      ensures st == OK && old(Fits(index + 1)) ==>
                var n := if index >= old(size) then index + 1 else old(size);
                Contents() == Resized(old(Contents()), n, fill)[index := val]
      ensures st == OK && old(Fits(index + 1)) ==>
                capacity == if index >= old(capacity) then Capacity(index + 1) else old(capacity)
    {
      st := SetMinSizeFill(Wrap(index + 1), fill, allocOk);
      if st != OK {
        return;
      }
      Store(index, val);
    }

    method AddLast(val: T, allocOk: bool) returns (st: Status)
      requires Valid()
      modifies this, data
      ensures data == old(data) || fresh(data)
      ensures st == if old(size < capacity) || allocOk || old(size) == 0xFFFF_FFFF then OK else ALLOC_FAILED
      ensures Valid() <==> st != OK || old(Fits(size + 1))
      ensures Valid() ==> Contents() == if st == OK then old(Contents()) + [val] else old(Contents())
      ensures Valid() ==>
                var g := old(Growth(size, capacity, copies));
                Growth(size, capacity, copies) == if st == OK then Appended(g) else g
    {
      st := Set(size, val, allocOk);
    }

    method Clear(baseOk: bool)
      requires Valid()
      modifies this
      ensures Usable() && fresh(data) && (Valid() <==> baseOk)
      ensures size == 0 && capacity == BASE_SIZE && copies == 0
    {
      data := new T[if baseOk then BASE_SIZE else 0];
      size := 0;
      capacity := BASE_SIZE;
      copies := 0;
    }

    /**
     * Becomes a copy of a raw buffer. When the base buffer cannot be had, this needs a source that makes the
     * array grow: a smaller one is written to the buffer that is not there.
     */
    method SetData(src: seq<T>, baseOk: bool, allocOk: bool) returns (st: Status)
      requires Valid() && |src| < UINT32_VALUES
      modifies this
      ensures fresh(data)
      ensures st == if |src| <= BASE_SIZE || allocOk then OK else ALLOC_FAILED
      ensures Valid() <==> if |src| <= BASE_SIZE || !allocOk then baseOk else |src| <= MAX_SIZE
      ensures Valid() ==> Contents() == if st == OK then src else []
    {
      Clear(baseOk);
      st := SetSize(|src|, allocOk);
      if st != OK {
        return;
      }
      ghost var valid := Valid();
      var i := 0;
      while i < |src|
        invariant 0 <= i <= |src| == size && fresh(data)
        invariant valid <==> Valid()
        invariant valid ==> data[..i] == src[..i]
      {
        Store(i, src[i]);
        i := i + 1;
      }
    }
  }

  // ----- what appending costs -----

  datatype Growth = Growth(size: nat, capacity: nat, copies: nat)

  function Appended(g: Growth): Growth {
    if g.size + 1 > g.capacity
    then Growth(g.size + 1, Capacity(g.size + 1), g.copies + g.size)
    else g.(size := g.size + 1)
  }

  /** `n` appends to an empty array that was given room for `baseSize` elements. */
  function AppendedTimes(baseSize: nat, n: nat): Growth {
    if n == 0 then Growth(0, baseSize, 0) else Appended(AppendedTimes(baseSize, n - 1))
  }

  /** Doubling: between powers of two, the capacity for one more than 2^e is 2^(e+1). */
  lemma CapacityDoubles(s: nat)
    requires s >= 1
    ensures s < Capacity(s + 1) <= 2 * s
    ensures forall e: nat :: s == Pow2(e) ==> Capacity(s + 1) == 2 * s
  {
    BitLengthBounds(s);
    forall e: nat | s == Pow2(e)
      ensures Capacity(s + 1) == 2 * s
    {
      PowerAbove(s + 1, e + 1);
      if BitLength(s) <= e {
        Pow2Monotone(BitLength(s), e);
      } else {
        Pow2Monotone(e + 1, BitLength(s));
      }
    }
  }

  ghost predicate IsPower(c: nat) {
    exists e: nat :: c == Pow2(e)
  }

  /** Either nothing was copied yet, or the copies stay below a power-of-two capacity of at most twice the size. */
  ghost predicate Paid(g: Growth, baseSize: nat) {
    && g.size <= g.capacity
    && (g.capacity == baseSize || IsPower(g.capacity))
    && (g.copies > 0 ==> IsPower(g.capacity) && g.size >= 2 && g.copies < g.capacity <= 2 * (g.size - 1))
  }

  lemma AppendedPays(g: Growth, baseSize: nat)
    requires Paid(g, baseSize)
    ensures Paid(Appended(g), baseSize)
  {
    if g.size == g.capacity {
      var c := Capacity(g.size + 1);
      assert IsPower(c) by {
        assert c == Pow2(BitLength(g.size));
      }
      if g.size >= 1 {
        CapacityDoubles(g.size);
        if g.copies > 0 {
          FullIsPower(g.size);
        }
      } else {
        assert BitLength(0) == 0 && c == 1;
      }
    }
  }

  /** A full array whose capacity is a power of two doubles it. */
  lemma FullIsPower(s: nat)
    requires s >= 1 && IsPower(s)
    ensures Capacity(s + 1) == 2 * s
  {
    var e: nat :| s == Pow2(e);
    CapacityDoubles(s);
  }

  lemma {:induction false} AppendInvariant(baseSize: nat, n: nat)
    ensures AppendedTimes(baseSize, n).size == n && Paid(AppendedTimes(baseSize, n), baseSize)
  {
    if n > 0 {
      AppendInvariant(baseSize, n - 1);
      AppendedPays(AppendedTimes(baseSize, n - 1), baseSize);
    }
  }

  /** Amortised growth: n appends copy fewer than 2n elements, whatever the base size. */
  lemma AppendsAreCheap(baseSize: nat, n: nat)
    requires n >= 1
    ensures AppendedTimes(baseSize, n).copies < 2 * n
  {
    AppendInvariant(baseSize, n);
  }

  /** From the base size of a default-constructed or cleared array, the capacity is always a power of two. */
  lemma CapacityIsPower(n: nat)
    ensures exists e: nat :: AppendedTimes(BASE_SIZE, n).capacity == Pow2(e)
  {
    AppendInvariant(BASE_SIZE, n);
    assert Pow2(3) == BASE_SIZE;
  }
}
