/**
 * The bit set of XnBitSet.h: 32 bits to a word, the lowest index in the highest bit. What the words
 * mean is the set of indices `Members`.
 */
module XnBitSet {
  import opened XnStatus
  import opened XnUInt32
  import opened XnArray

  /** The word with only the bit of index `i` set. */
  function Single(i: nat): UInt32 {
    WordPowers();
    Pow2Monotone(31 - i % 32, 31);
    Pow2(31 - i % 32)
  }

  /** A one, shifted up by the low five bits of the complement of the index. */
  function Mask(index: UInt32): (r: UInt32)
    ensures r == Single(index)
  {
    ComplementMasked(index);
    ShlOne(31 - index % 32);
    assert Shl(1, And(Complement(index), 0x1F)) == Single(index);
    Shl(1, And(Complement(index), 0x1F))
  }

  /** Bit `i` of a row of words; false beyond the row. */
  predicate BitAt(words: seq<UInt32>, i: nat) {
    i / 32 < |words| && Digit(words[i / 32], 31 - i % 32)
  }

  ghost function Members(words: seq<UInt32>): iset<nat> {
    iset i: nat | BitAt(words, i)
  }

  function WithBit(word: UInt32, i: nat, value: bool): UInt32 {
    if value then
      WordPowers();
      OrBound(word, Single(i), 32);
      Or(word, Single(i))
    else
      AndNot(word, Single(i))
  }

  /** Adding the mask to a word, or taking it out, changes the one bit. */
  lemma MaskedWord(word: UInt32, index: UInt32, value: bool)
    ensures WithBit(word, index, value)
         == if value then Or(word, Mask(index)) else AndNot(word, Mask(index))
  {
  }

  lemma WithBitDigit(word: UInt32, i: nat, value: bool, k: nat)
    requires k < 32
    ensures Digit(WithBit(word, i, value), k) <==> if k == 31 - i % 32 then value else Digit(word, k)
  {
    OrDigit(word, Single(i), k);
    AndNotDigit(word, Single(i), k);
    PowerDigit(31 - i % 32, k);
  }

  /** The words that Set leaves behind. */
  function SetWords(words: seq<UInt32>, i: nat, value: bool): seq<UInt32> {
    var n := if i / 32 >= |words| then i / 32 + 1 else |words|;
    var word := if i / 32 < |words| then words[i / 32] else 0;
    Resized(words, n, 0)[i / 32 := WithBit(word, i, value)]
  }

  lemma SetBitAt(words: seq<UInt32>, i: nat, value: bool, j: nat)
    ensures BitAt(SetWords(words, i, value), j) <==> if j == i then value else BitAt(words, j)
  {
    var word := if i / 32 < |words| then words[i / 32] else 0;
    ZeroDigit(31 - j % 32);
    WithBitDigit(word, i, value, 31 - j % 32);
  }

  /** Setting one bit, on words first extended with zeros, changes the membership of that index only. */
  lemma SetMembers(words: seq<UInt32>, i: nat, value: bool)
    ensures Members(SetWords(words, i, value)) == if value then Members(words) + iset{i} else Members(words) - iset{i}
  {
    forall j: nat
      ensures BitAt(SetWords(words, i, value), j) <==> if j == i then value else BitAt(words, j)
    {
      SetBitAt(words, i, value, j);
    }
  }

  /** Resizing with zeros keeps the indices that still fit, and brings none back. */
  lemma ResizedMembers(words: seq<UInt32>, n: nat)
    ensures Members(Resized(words, n, 0)) == iset i: nat | i in Members(words) && i / 32 < n
  {
    forall j: nat
      ensures BitAt(Resized(words, n, 0), j) <==> BitAt(words, j) && j / 32 < n
    {
      ZeroDigit(31 - j % 32);
    }
  }

  // ----- bytes -----

  /** Four bytes as one word, the first one highest. */
  function Pack(b0: Byte, b1: Byte, b2: Byte, b3: Byte): nat {
    Or(Or(Or(Shl(b0, 24), Shl(b1, 16)), Shl(b2, 8)), b3)
  }

  lemma ByteBound(b: Byte)
    ensures b < Pow2(8)
  {
    WordPowers();
    assert Pow2(6) == 64;
  }

  lemma PackBound(b0: Byte, b1: Byte, b2: Byte, b3: Byte)
    ensures Pack(b0, b1, b2, b3) < UINT32_VALUES
  {
    ByteBound(b0); ByteBound(b1); ByteBound(b2); ByteBound(b3);
    ShlBound(b0, 8, 24);
    ShlBound(b1, 8, 16);
    ShlBound(b2, 8, 8);
    Pow2Monotone(24, 32);
    Pow2Monotone(16, 32);
    Pow2Monotone(8, 32);
    OrBound(Shl(b0, 24), Shl(b1, 16), 32);
    OrBound(Or(Shl(b0, 24), Shl(b1, 16)), Shl(b2, 8), 32);
    OrBound(Or(Or(Shl(b0, 24), Shl(b1, 16)), Shl(b2, 8)), b3, 32);
    WordPowers();
  }

  /** Beyond its eight digits a byte has no digit. */
  lemma NoDigitInByte(b: Byte, k: nat)
    requires k >= 8
    ensures !Digit(b, k)
  {
    ByteBound(b);
    Pow2Monotone(8, k);
    NoDigitAbove(b, k);
  }

  function ByteOf(b0: Byte, b1: Byte, b2: Byte, b3: Byte, q: nat): Byte {
    if q == 0 then b0 else if q == 1 then b1 else if q == 2 then b2 else b3
  }

  /** Digit 31 - m of the packed word is digit 7 - m % 8 of byte m / 8. */
  lemma PackDigit(b0: Byte, b1: Byte, b2: Byte, b3: Byte, m: nat)
    requires m < 32
    ensures Digit(Pack(b0, b1, b2, b3), 31 - m) <==> Digit(ByteOf(b0, b1, b2, b3, m / 8), 7 - m % 8)
  {
    var k := 31 - m;
    OrDigit(Or(Or(Shl(b0, 24), Shl(b1, 16)), Shl(b2, 8)), b3, k);
    OrDigit(Or(Shl(b0, 24), Shl(b1, 16)), Shl(b2, 8), k);
    OrDigit(Shl(b0, 24), Shl(b1, 16), k);
    ShlDigit(b0, 24, k);
    ShlDigit(b1, 16, k);
    ShlDigit(b2, 8, k);
    if k >= 8 { NoDigitInByte(b3, k); }
    if k >= 16 { NoDigitInByte(b2, k - 8); }
    if k >= 24 { NoDigitInByte(b1, k - 16); }
  }

  /** How many dwords SetDataBytes reads: at least one, and only whole ones. */
  function Dwords(bytes: nat): nat {
    if bytes / 4 > 1 then bytes / 4 else 1
  }

  /** The one to three bytes behind the last whole dword are dropped; fewer than four bytes are read as four. */
  lemma DwordsAre(bytes: nat)
    ensures 4 * Dwords(bytes) == if bytes < 4 then 4 else bytes - bytes % 4
  {
  }

  /** Dword `d` of a row of bytes. */
  function PackedWord(bytes: seq<Byte>, d: nat): UInt32
    requires 4 * d + 4 <= |bytes|
  {
    PackBound(bytes[4 * d], bytes[4 * d + 1], bytes[4 * d + 2], bytes[4 * d + 3]);
    Pack(bytes[4 * d], bytes[4 * d + 1], bytes[4 * d + 2], bytes[4 * d + 3])
  }

  /** The first `n` dwords of a row of bytes, most significant byte first. */
  function Packed(bytes: seq<Byte>, n: nat): seq<UInt32>
    requires 4 * n <= |bytes|
  {
    seq(n, d requires 0 <= d < n => PackedWord(bytes, d))
  }

  /** The indices that a row of bytes lists, highest bit of the first byte first. */
  ghost function ByteMembers(bytes: seq<Byte>, n: nat): iset<nat>
    requires n <= |bytes|
  {
    iset i: nat | i / 8 < n && Digit(bytes[i / 8], 7 - i % 8)
  }

  lemma PackedBitAt(bytes: seq<Byte>, n: nat, i: nat)
    requires 4 * n <= |bytes|
    ensures BitAt(Packed(bytes, n), i) <==> i / 8 < 4 * n && Digit(bytes[i / 8], 7 - i % 8)
  {
    var d, m := i / 32, i % 32;
    assert i / 8 == 4 * d + m / 8 && i % 8 == m % 8;
    if d < n {
      PackDigit(bytes[4 * d], bytes[4 * d + 1], bytes[4 * d + 2], bytes[4 * d + 3], m);
    }
  }

  /** Packing bytes into dwords and looking bits up through the mask compose to plain MSB-first order. */
  lemma PackedMembers(bytes: seq<Byte>, n: nat)
    requires 4 * n <= |bytes|
    ensures Members(Packed(bytes, n)) == ByteMembers(bytes, 4 * n)
  {
    forall i: nat
      ensures BitAt(Packed(bytes, n), i) <==> i / 8 < 4 * n && Digit(bytes[i / 8], 7 - i % 8)
    {
      PackedBitAt(bytes, n, i);
    }
  }

  lemma {:induction false} SomeDigit(x: nat, l: nat) returns (k: nat)
    requires 0 < x < Pow2(l)
    ensures k < l && Digit(x, k)
  {
    if x % 2 == 1 {
      k := 0;
    } else {
      k := SomeDigit(x / 2, l - 1);
      k := k + 1;
    }
  }

  /** Reading more or fewer bytes makes no difference exactly when the bytes in between are zero. */
  lemma SameByteMembers(bytes: seq<Byte>, n: nat, m: nat)
    requires n <= m <= |bytes|
    ensures ByteMembers(bytes, n) == ByteMembers(bytes, m) <==> forall b :: n <= b < m ==> bytes[b] == 0
  {
    if b :| n <= b < m && bytes[b] != 0 {
      ByteBound(bytes[b]);
      var k := SomeDigit(bytes[b], 8);
      var i := 8 * b + (7 - k);
      assert i / 8 == b && i % 8 == 7 - k;
      assert i in ByteMembers(bytes, m) && i !in ByteMembers(bytes, n);
    } else {
      forall i: nat | n <= i / 8 < m
        ensures !Digit(bytes[i / 8], 7 - i % 8)
      {
        ZeroDigit(7 - i % 8);
      }
    }
  }

  /**
   * SetDataBytes yields the bits of the `n` bytes it was given exactly when the bytes it leaves out, or
   * reads beyond them, are zero; so always when `n` is a positive multiple of four.
   */
  lemma DecodesExactly(bytes: seq<Byte>, n: nat)
    requires n <= |bytes| && 4 * Dwords(n) <= |bytes|
    ensures var m := 4 * Dwords(n);
            Members(Packed(bytes, Dwords(n))) == ByteMembers(bytes, n)
            <==> (forall b :: (n <= b < m || m <= b < n) ==> bytes[b] == 0)
    ensures n > 0 && n % 4 == 0 ==> Members(Packed(bytes, Dwords(n))) == ByteMembers(bytes, n)
  {
    var m := 4 * Dwords(n);
    PackedMembers(bytes, Dwords(n));
    if n <= m {
      SameByteMembers(bytes, n, m);
    } else {
      SameByteMembers(bytes, m, n);
    }
  }

  // ----- indices below a size -----

  ghost predicate Below(s: iset<nat>, n: nat) {
    forall i: nat :: i in s ==> i < n
  }

  /** No index reaches 32 n exactly when the words from the n-th on are zero. */
  lemma WordsBelow(words: seq<UInt32>, n: nat)
    ensures Below(Members(words), 32 * n) <==> forall w :: n <= w < |words| ==> words[w] == 0
  {
    if w :| n <= w < |words| && words[w] != 0 {
      WordPowers();
      var k := SomeDigit(words[w], 32);
      var i := 32 * w + (31 - k);
      assert i / 32 == w && i % 32 == 31 - k;
      assert i in Members(words);
    } else {
      forall i: nat | i in Members(words)
        ensures i < 32 * n
      {
        ZeroDigit(31 - i % 32);
      }
    }
  }

  /** No index reaches 8 n exactly when the bytes from the n-th on are zero. */
  lemma BytesBelow(bytes: seq<Byte>, m: nat, n: nat)
    requires m <= |bytes|
    ensures Below(ByteMembers(bytes, m), 8 * n) <==> forall b :: n <= b < m ==> bytes[b] == 0
  {
    if b :| n <= b < m && bytes[b] != 0 {
      ByteBound(bytes[b]);
      var k := SomeDigit(bytes[b], 8);
      var i := 8 * b + (7 - k);
      assert i / 8 == b && i % 8 == 7 - k;
      assert i in ByteMembers(bytes, m);
    } else {
      forall i: nat | i in ByteMembers(bytes, m)
        ensures i < 8 * n
      {
        ZeroDigit(7 - i % 8);
      }
    }
  }

  lemma SizeOfWords(n: nat)
    ensures Wrap(32 * n) == 32 * (n % 0x800_0000)
  {
  }

  lemma SizeOfBytes(n: nat)
    ensures Wrap(8 * n) == 8 * (n % 0x2000_0000)
  {
  }

  /** Adding an index, or taking one out, and the size that goes with it. */
  lemma SetBelow(s: iset<nat>, n: nat, index: UInt32, value: bool)
    requires Below(s, n)
    ensures var s' := if value then s + iset{index} else s - iset{index};
            var n' := if index == 0xFFFF_FFFF || index < n then n else index + 1;
            n < UINT32_VALUES ==> (Below(s', n') <==> !(value && index == 0xFFFF_FFFF))
  {
    var s' := if value then s + iset{index} else s - iset{index};
    var i: nat := index;
    assert value ==> i in s';
  }

  class BitSet {
    const words: Array<UInt32>
    var size: nat

    ghost predicate Valid()
      reads this, words
    {
      words.Valid() && size < UINT32_VALUES
    }

    ghost function Indices(): iset<nat>
      requires Valid()
      reads this, words, words.data
    {
      Members(words.Contents())
    }

    /** Every index in the set lies below the size. */
    ghost predicate Bounded()
      requires Valid()
      reads this, words, words.data
    {
      Below(Indices(), size)
    }

    /** The base buffer of the words is taken for granted: without it the set is not valid. */
    constructor (baseOk: bool)
      ensures fresh(words) && fresh(words.data) && (Valid() <==> baseOk)
      ensures size == 0 && (Valid() ==> Indices() == iset{})
    {
      words := new Array(BASE_SIZE, baseOk);
      size := 0;
    }

    method Set(index: UInt32, value: bool, allocOk: bool) returns (st: Status)
      requires Valid()
      modifies this, words, words.data
      ensures Valid() && (words.data == old(words.data) || fresh(words.data))
      ensures st == if index / 32 < old(words.capacity) || allocOk then OK else ALLOC_FAILED
      ensures st != OK ==> Indices() == old(Indices()) && size == old(size)
      ensures st == OK ==> Indices() == if value then old(Indices()) + iset{index} else old(Indices()) - iset{index}
      ensures st == OK ==> size == if index == 0xFFFF_FFFF || index < old(size) then old(size) else index + 1
      ensures old(Bounded()) ==> (Bounded() <==> !(st == OK && value && index == 0xFFFF_FFFF))
    {
      if Bounded() {
        SetBelow(Indices(), size, index, value);
      }
      st := SetWord(index, value, allocOk);
      if st != OK {
        return;
      }
      var next := Wrap(index + 1);
      assert next == if index == 0xFFFF_FFFF then 0 else index + 1;
      size := if size > next then size else next;
    }

    /** The part of Set that writes the word. */
    method SetWord(index: UInt32, value: bool, allocOk: bool) returns (st: Status)
      requires Valid()
      modifies words, words.data
      ensures Valid() && (words.data == old(words.data) || fresh(words.data))
      ensures st == if index / 32 < old(words.capacity) || allocOk then OK else ALLOC_FAILED
      ensures st != OK ==> Indices() == old(Indices())
      ensures st == OK ==> Indices() == if value then old(Indices()) + iset{index} else old(Indices()) - iset{index}
    {
      var arrayIndex := index / 32;
      var oldVal := if arrayIndex < words.size then words.data[arrayIndex] else 0;
      MaskedWord(oldVal, index, value);
      var newVal := if value then Or(oldVal, Mask(index)) else AndNot(oldVal, Mask(index));
      SetMembers(words.Contents(), index, value);
      st := words.SetFill(arrayIndex, newVal, 0, allocOk);
      if st == OK {
        assert words.Contents() == SetWords(old(words.Contents()), index, value);
      }
    }

    method IsSet(index: UInt32) returns (r: bool)
      requires Valid()
      ensures r <==> index in Indices()
    {
      var arrayIndex := index / 32;
      if arrayIndex >= words.size {
        return false;
      }
      MaskTests(words.data[arrayIndex], 31 - index % 32);
      r := And(words.data[arrayIndex], Mask(index)) != 0;
    }

    /** Resizes the words, the added ones being zero. The size in bits stays what it was. */
    method SetSize(bits: UInt32, allocOk: bool) returns (st: Status)
      requires Valid()
      modifies words, words.data
      ensures Valid() && (words.data == old(words.data) || fresh(words.data))
      ensures st == if bits / 32 < old(words.capacity) || allocOk then OK else ALLOC_FAILED
      ensures st == OK ==> Indices() == iset i: nat | i in old(Indices()) && i / 32 < bits / 32 + 1
      ensures words.size == if st == OK then bits / 32 + 1 else old(words.size)
      ensures st != OK ==> Indices() == old(Indices())
      ensures old(Bounded()) ==> Bounded()
    {
      ResizedMembers(words.Contents(), bits / 32 + 1);
      st := words.SetSizeFill(bits / 32 + 1, 0, allocOk);
    }

    method SetData(src: seq<UInt32>, baseOk: bool, allocOk: bool) returns (st: Status)
      requires Valid() && |src| < UINT32_VALUES
      modifies this, words
      ensures fresh(words.data)
      ensures st == if |src| <= BASE_SIZE || allocOk then OK else ALLOC_FAILED
      ensures Valid() <==> if |src| <= BASE_SIZE || !allocOk then baseOk else |src| <= MAX_SIZE
      ensures Valid() ==> Indices() == if st == OK then Members(src) else iset{}
      ensures size == if st == OK then Wrap(32 * |src|) else old(size)
      ensures st == OK && Valid() ==>
                (Bounded() <==> forall w :: |src| % 0x800_0000 <= w < |src| ==> src[w] == 0)
    {
      st := words.SetData(src, baseOk, allocOk);
      if st != OK {
        return;
      }
      size := Wrap(32 * |src|);
      SizeOfWords(|src|);
      WordsBelow(src, |src| % 0x800_0000);
    }

    method SetDataBytes(src: seq<Byte>, bytes: UInt32, allocOk: bool) returns (st: Status)
      requires Valid() && 4 * Dwords(bytes) <= |src|
      modifies this, words, words.data
      ensures Valid() && (words.data == old(words.data) || fresh(words.data))
      ensures st == if Dwords(bytes) <= old(words.capacity) || allocOk then OK else ALLOC_FAILED
      ensures st != OK ==> Indices() == old(Indices()) && size == old(size)
      ensures st == OK ==> Indices() == Members(Packed(src, Dwords(bytes))) == ByteMembers(src, 4 * Dwords(bytes))
      ensures st == OK ==> 4 * words.size == if bytes < 4 then 4 else bytes - bytes % 4
      ensures st == OK ==> size == Wrap(8 * bytes)
      ensures st == OK ==>
                (Bounded() <==> forall b :: bytes % 0x2000_0000 <= b < 4 * Dwords(bytes) ==> src[b] == 0)
    {
      var dwords := Dwords(bytes);
      st := words.SetSize(dwords, allocOk);
      if st != OK {
        return;
      }
      StoreBytes(src, dwords);
      size := Wrap(8 * bytes);
      PackedMembers(src, dwords);
      SizeOfBytes(bytes);
      BytesBelow(src, 4 * dwords, bytes % 0x2000_0000);
    }

    /** The loop of SetDataBytes. */
    method StoreBytes(src: seq<Byte>, dwords: nat)
      requires Valid() && 4 * dwords <= |src| && words.size == dwords
      modifies words.data
      ensures words.Contents() == Packed(src, dwords)
    {
      var dwordIdx, byteIdx := 0, 0;
      while dwordIdx < dwords
        invariant 0 <= dwordIdx <= dwords && byteIdx == 4 * dwordIdx
        invariant words.data[..dwordIdx] == Packed(src, dwords)[..dwordIdx]
      {
        PackBound(src[byteIdx], src[byteIdx + 1], src[byteIdx + 2], src[byteIdx + 3]);
        words.data[dwordIdx] := Pack(src[byteIdx], src[byteIdx + 1], src[byteIdx + 2], src[byteIdx + 3]);
        dwordIdx, byteIdx := dwordIdx + 1, byteIdx + 4;
      }
    }

    method Clear(baseOk: bool)
      requires Valid()
      modifies this, words
      ensures fresh(words.data) && (Valid() <==> baseOk)
      ensures size == 0 && (Valid() ==> Indices() == iset{})
    {
      words.Clear(baseOk);
      size := 0;
    }
  }
}
