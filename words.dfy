/**
 * 32-bit word kernels of the binary matrix multiply: the SWAR population
 * count, the bitwise XNOR and the binary "multiplication" of two words,
 * which counts the bit positions on which the two words agree.
 *
 * Bits of a word are numbered by column, most significant bit first:
 * column t of a word is bit 31 - t, exactly as the bit-packed matrices
 * lay out a row of 32 bits in one word.
 */
module Words {

  /** Side of a square fragment (BINARY_FRAG_SIZE). */
  const FRAG: nat := 32


  /** Bit position (counted from the least significant bit) of column t. */
  function Sh(t: nat): bv5
    requires t < 32
  {
    31 - (t as bv5)
  }

  /** The one-bit mask `1u << (31 - t)` of column t. */
  function ColumnMask(t: nat): bv32
    requires t < 32
  {
    1 << Sh(t)
  }

  /** Column t (MSB first) of word x is set. */
  predicate WordBit(x: bv32, t: nat)
    requires t < 32
  {
    x & ColumnMask(t) != 0
  }

  /** The C test `(x >> s) & 1` on the bit at position s (counted from the least significant bit). */
  predicate LowBit(x: bv32, s: bv5)
  {
    (x >> s) & 1 == 1
  }

  lemma ShiftedBit(x: bv32, s: bv5)
    ensures LowBit(x, s) == (x & (1 << s) != 0)
  {
    if x & (1 << s) != 0 {
    }
  }

  lemma ShiftedColumn(x: bv32, t: nat, s: bv5)
    requires t < 32 && s == Sh(t)
    ensures WordBit(x, t) == LowBit(x, s)
  {
    ShiftedBit(x, s);
  }

  /** Column t of x is the C test `(x >> (31 - t)) & 1`. */
  lemma WordBitShifted(x: bv32, t: nat)
    requires t < 32
    ensures WordBit(x, t) == LowBit(x, Sh(t))
  {
    ShiftedColumn(x, t, Sh(t));
  }

  /** A word with exactly one bit set. */
  predicate OneHot(m: bv32)
  {
    m != 0 && m & (m - 1) == 0
  }

  lemma ShiftOneHot(s: bv5)
    ensures OneHot(1 << s)
  {
  }

  lemma DistinctShifts(s: bv5, r: bv5)
    requires s != r
    ensures (1 as bv32) << s != (1 as bv32) << r
  {
  }

  lemma ColumnBv(t: nat)
    requires t < 32
    ensures (t as bv5) as int == t
  {
  }

  /** Every column mask has exactly one bit set. */
  lemma ColumnMaskOneHot(t: nat)
    requires t < 32
    ensures OneHot(ColumnMask(t))
  {
    ShiftOneHot(Sh(t));
  }

  /** Distinct columns have distinct masks. */
  lemma ColumnMasksDistinct(t: nat, u: nat)
    requires t < 32 && u < 32 && t != u
    ensures ColumnMask(t) != ColumnMask(u)
  {
    ColumnBv(t);
    ColumnBv(u);
    DistinctShifts(Sh(t), Sh(u));
  }

  /** 1 when column t of x is set, 0 otherwise. */
  function Ind(x: bv32, t: nat): nat
    requires t < 32
  {
    if WordBit(x, t) then 1 else 0
  }

  /** Number of set bits among the first n columns of x. */
  function CountOnes(x: bv32, n: nat): (r: nat)
    requires n <= 32
    ensures r <= n
  {
    if n == 0 then 0 else CountOnes(x, n - 1) + Ind(x, n - 1)
  }

  /** 1 when a and b agree on column t, 0 otherwise. */
  function Agree(a: bv32, b: bv32, t: nat): nat
    requires t < 32
  {
    if WordBit(a, t) == WordBit(b, t) then 1 else 0
  }

  /** Number of columns among the first n on which a and b agree. */
  function EqualBits(a: bv32, b: bv32, n: nat): (r: nat)
    requires n <= 32
    ensures r <= n
  {
    if n == 0 then 0 else EqualBits(a, b, n - 1) + Agree(a, b, n - 1)
  }

  // ---------------------------------------------------------------------
  // popcount32: the five rewriting steps of the SWAR bit count

  /** Each 2-bit field holds the number of ones it had. */
  function PairSums(x: bv32): bv32 { x - ((x >> 1) & 0x55555555) }

  /** Each 4-bit field holds the number of ones it had. */
  function NibbleSums(x: bv32): bv32 { (x & 0x33333333) + ((x >> 2) & 0x33333333) }

  /** Each byte holds the number of ones it had. */
  function ByteSums(x: bv32): bv32 { (x + (x >> 4)) & 0x0F0F0F0F }

  /** The low byte of each 16-bit half holds that half's count. */
  function HalfSums(x: bv32): bv32 { x + (x >> 8) }

  /** The low byte holds the count of the whole word. */
  function WordSum(x: bv32): bv32 { x + (x >> 16) }

  /** popcount32: the SWAR population count, masked to its low six bits; it counts the set bits of x. */
  function Popcount32(x: bv32): (r: int)
    ensures r == CountOnes(x, 32)
    ensures 0 <= r <= 32
  {
    FoldedCountsOnes(x);
    (WordSum(HalfSums(ByteSums(NibbleSums(PairSums(x))))) & 0x3F) as int
  }

  lemma BytesHigh(x: bv32)
    ensures ByteSums(NibbleSums(PairSums(x))) & 0xF0F0F0F0 == 0
  {
  }

  lemma Byte0(x: bv32)
    ensures ((ByteSums(NibbleSums(PairSums(x))) >> 24) & 0xFF) as int ==
      Ind(x, 0) + Ind(x, 1) +
      Ind(x, 2) + Ind(x, 3) +
      Ind(x, 4) + Ind(x, 5) +
      Ind(x, 6) + Ind(x, 7)
  {
  }

  lemma Byte1(x: bv32)
    ensures ((ByteSums(NibbleSums(PairSums(x))) >> 16) & 0xFF) as int ==
      Ind(x, 8) + Ind(x, 9) +
      Ind(x, 10) + Ind(x, 11) +
      Ind(x, 12) + Ind(x, 13) +
      Ind(x, 14) + Ind(x, 15)
  {
  }

  lemma Byte2(x: bv32)
    ensures ((ByteSums(NibbleSums(PairSums(x))) >> 8) & 0xFF) as int ==
      Ind(x, 16) + Ind(x, 17) +
      Ind(x, 18) + Ind(x, 19) +
      Ind(x, 20) + Ind(x, 21) +
      Ind(x, 22) + Ind(x, 23)
  {
  }

  lemma Byte3(x: bv32)
    ensures (ByteSums(NibbleSums(PairSums(x))) & 0xFF) as int ==
      Ind(x, 24) + Ind(x, 25) +
      Ind(x, 26) + Ind(x, 27) +
      Ind(x, 28) + Ind(x, 29) +
      Ind(x, 30) + Ind(x, 31)
  {
  }

  lemma HalfLow(y: bv32)
    requires y & 0xF0F0F0F0 == 0
    ensures (HalfSums(y) & 0xFF) as int == (y & 0xFF) as int + ((y >> 8) & 0xFF) as int
  {
  }

  lemma HalfHigh(y: bv32)
    requires y & 0xF0F0F0F0 == 0
    ensures ((HalfSums(y) >> 16) & 0xFF) as int == ((y >> 16) & 0xFF) as int + ((y >> 24) & 0xFF) as int
  {
  }

  lemma HalfNoCarry(y: bv32)
    requires y & 0xF0F0F0F0 == 0
    ensures HalfSums(y) & 0xE0E0E0E0 == 0
  {
  }

  lemma WordLow(z: bv32)
    requires z & 0xE0E0E0E0 == 0
    ensures (WordSum(z) & 0x3F) as int == (z & 0xFF) as int + ((z >> 16) & 0xFF) as int
  {
  }

  lemma FoldedSteps(y: bv32, z: bv32, r: bv32)
    requires y & 0xF0F0F0F0 == 0
    requires z == HalfSums(y) && r == WordSum(z) & 0x3F
    ensures r as int ==
      (y & 0xFF) as int + ((y >> 8) & 0xFF) as int + ((y >> 16) & 0xFF) as int + ((y >> 24) & 0xFF) as int
  {
    HalfLow(y);
    HalfHigh(y);
    HalfNoCarry(y);
    WordLow(z);
  }

  /** The last two steps add up the four byte counts. */
  lemma FoldedBytes(y: bv32)
    requires y & 0xF0F0F0F0 == 0
    ensures (WordSum(HalfSums(y)) & 0x3F) as int ==
      (y & 0xFF) as int + ((y >> 8) & 0xFF) as int + ((y >> 16) & 0xFF) as int + ((y >> 24) & 0xFF) as int
  {
    FoldedSteps(y, HalfSums(y), WordSum(HalfSums(y)) & 0x3F);
  }

  lemma CountOnes8(x: bv32, b: nat)
    requires b + 8 <= 32
    ensures CountOnes(x, b + 8) == CountOnes(x, b) +
      Ind(x, b) + Ind(x, b + 1) +
      Ind(x, b + 2) + Ind(x, b + 3) +
      Ind(x, b + 4) + Ind(x, b + 5) +
      Ind(x, b + 6) + Ind(x, b + 7)
  {
    assert CountOnes(x, b + 8) == CountOnes(x, b + 7) + Ind(x, b + 7);
    assert CountOnes(x, b + 7) == CountOnes(x, b + 6) + Ind(x, b + 6);
    assert CountOnes(x, b + 6) == CountOnes(x, b + 5) + Ind(x, b + 5);
    assert CountOnes(x, b + 5) == CountOnes(x, b + 4) + Ind(x, b + 4);
    assert CountOnes(x, b + 4) == CountOnes(x, b + 3) + Ind(x, b + 3);
    assert CountOnes(x, b + 3) == CountOnes(x, b + 2) + Ind(x, b + 2);
    assert CountOnes(x, b + 2) == CountOnes(x, b + 1) + Ind(x, b + 1);
  }

  lemma CountOnesBytes(x: bv32)
    ensures CountOnes(x, 32) ==
      (Ind(x, 0) + Ind(x, 1) + Ind(x, 2) + Ind(x, 3) + Ind(x, 4) + Ind(x, 5) + Ind(x, 6) + Ind(x, 7)) +
      (Ind(x, 8) + Ind(x, 9) + Ind(x, 10) + Ind(x, 11) + Ind(x, 12) + Ind(x, 13) + Ind(x, 14) + Ind(x, 15)) +
      (Ind(x, 16) + Ind(x, 17) + Ind(x, 18) + Ind(x, 19) + Ind(x, 20) + Ind(x, 21) + Ind(x, 22) + Ind(x, 23)) +
      (Ind(x, 24) + Ind(x, 25) + Ind(x, 26) + Ind(x, 27) + Ind(x, 28) + Ind(x, 29) + Ind(x, 30) + Ind(x, 31))
  {
    CountOnes8(x, 0);
    CountOnes8(x, 8);
    CountOnes8(x, 16);
    CountOnes8(x, 24);
  }

  lemma FoldedCountsOnes(x: bv32)
    ensures (WordSum(HalfSums(ByteSums(NibbleSums(PairSums(x))))) & 0x3F) as int == CountOnes(x, 32)
  {
    BytesHigh(x);
    FoldedBytes(ByteSums(NibbleSums(PairSums(x))));
    Byte0(x);
    Byte1(x);
    Byte2(x);
    Byte3(x);
    CountOnesBytes(x);
  }

  /** popcount32 returns the number of set bits of x, a value in 0..32. */
  lemma PopcountCountsOnes(x: bv32)
    ensures Popcount32(x) == CountOnes(x, 32)
    ensures 0 <= Popcount32(x) <= 32
  {
    FoldedCountsOnes(x);
  }

  // ---------------------------------------------------------------------
  // xnor32 and binaryMul

  /** xnor32: the bitwise complement of the exclusive or. */
  function Xnor32(a: bv32, b: bv32): (r: bv32)
    ensures forall t :: 0 <= t < 32 ==> WordBit(r, t) == (WordBit(a, t) == WordBit(b, t))
  {
    XnorBits(a, b);
    !(a ^ b)
  }

  lemma XnorBits(a: bv32, b: bv32)
    ensures forall t :: 0 <= t < 32 ==> WordBit(!(a ^ b), t) == (WordBit(a, t) == WordBit(b, t))
  {
    forall t | 0 <= t < 32
      ensures WordBit(!(a ^ b), t) == (WordBit(a, t) == WordBit(b, t))
    {
      XnorColumn(a, b, t);
    }
  }

  lemma XnorColumn(a: bv32, b: bv32, t: nat)
    requires t < 32
    ensures WordBit(!(a ^ b), t) == (WordBit(a, t) == WordBit(b, t))
  {
    ColumnMaskOneHot(t);
    XnorMasked(a, b, ColumnMask(t));
  }

  lemma XnorMasked(a: bv32, b: bv32, m: bv32)
    requires OneHot(m)
    ensures (!(a ^ b) & m != 0) == ((a & m != 0) == (b & m != 0))
  {
  }

  /** A column of xnor32(a, b) is set exactly when a and b agree there. */
  lemma XnorBit(a: bv32, b: bv32, t: nat)
    requires t < 32
    ensures WordBit(Xnor32(a, b), t) == (WordBit(a, t) == WordBit(b, t))
  {
    ColumnMaskOneHot(t);
    XnorMasked(a, b, ColumnMask(t));
  }

  lemma ComplementMasked(a: bv32, m: bv32)
    requires OneHot(m)
    ensures (!a & m != 0) == !(a & m != 0)
  {
  }

  /** A column of ~a is set exactly when it is clear in a. */
  lemma ComplementBit(a: bv32, t: nat)
    requires t < 32
    ensures WordBit(!a, t) == !WordBit(a, t)
  {
    ColumnMaskOneHot(t);
    ComplementMasked(a, ColumnMask(t));
  }

  /** binaryMul: popcount of the xnor of the two words, the number of bit positions on which they agree. */
  function BinaryMul(a: bv32, b: bv32): (r: int)
    ensures r == EqualBits(a, b, 32)
  {
    XnorCountsEqualBits(a, b, 32);
    Popcount32(Xnor32(a, b))
  }

  lemma {:induction false} XnorCountsEqualBits(a: bv32, b: bv32, n: nat)
    requires n <= 32
    ensures CountOnes(Xnor32(a, b), n) == EqualBits(a, b, n)
  {
    if n > 0 {
      XnorCountsEqualBits(a, b, n - 1);
      XnorBit(a, b, n - 1);
    }
  }

  /** binaryMul returns the number of equal bits of its two operands. */
  lemma BinaryMulCountsEqualBits(a: bv32, b: bv32)
    ensures BinaryMul(a, b) == EqualBits(a, b, 32)
  {
    PopcountCountsOnes(Xnor32(a, b));
    XnorCountsEqualBits(a, b, 32);
  }

  /** binaryMul returns a count of bit positions: between 0 and 32. */
  lemma BinaryMulRange(a: bv32, b: bv32)
    ensures 0 <= BinaryMul(a, b) <= 32
  {
    BinaryMulCountsEqualBits(a, b);
  }

  lemma {:induction false} EqualBitsSymmetric(a: bv32, b: bv32, n: nat)
    requires n <= 32
    ensures EqualBits(a, b, n) == EqualBits(b, a, n)
  {
    if n > 0 {
      EqualBitsSymmetric(a, b, n - 1);
    }
  }

  lemma {:induction false} EqualBitsSelf(a: bv32, n: nat)
    requires n <= 32
    ensures EqualBits(a, a, n) == n
  {
    if n > 0 {
      EqualBitsSelf(a, n - 1);
    }
  }

  lemma {:induction false} EqualBitsComplement(a: bv32, n: nat)
    requires n <= 32
    ensures EqualBits(a, !a, n) == 0
  {
    if n > 0 {
      EqualBitsComplement(a, n - 1);
      ComplementBit(a, n - 1);
    }
  }

  /** binaryMul is commutative. */
  lemma BinaryMulCommutes(a: bv32, b: bv32)
    ensures BinaryMul(a, b) == BinaryMul(b, a)
  {
    BinaryMulCountsEqualBits(a, b);
    BinaryMulCountsEqualBits(b, a);
    EqualBitsSymmetric(a, b, 32);
  }

  /** A word agrees with itself on all 32 bits. */
  lemma BinaryMulSelf(a: bv32)
    ensures BinaryMul(a, a) == 32
  {
    BinaryMulCountsEqualBits(a, a);
    EqualBitsSelf(a, 32);
  }

  /** A word agrees with its complement on no bit. */
  lemma BinaryMulComplement(a: bv32)
    ensures BinaryMul(a, !a) == 0
  {
    BinaryMulCountsEqualBits(a, !a);
    EqualBitsComplement(a, 32);
  }

  // ---------------------------------------------------------------------
  // Words are determined by their 32 columns

  /** Columns b .. b+7 of x and y agree. */
  predicate SameByte(x: bv32, y: bv32, b: nat)
    requires b + 8 <= 32
  {
    WordBit(x, b) == WordBit(y, b) && WordBit(x, b + 1) == WordBit(y, b + 1) &&
    WordBit(x, b + 2) == WordBit(y, b + 2) && WordBit(x, b + 3) == WordBit(y, b + 3) &&
    WordBit(x, b + 4) == WordBit(y, b + 4) && WordBit(x, b + 5) == WordBit(y, b + 5) &&
    WordBit(x, b + 6) == WordBit(y, b + 6) && WordBit(x, b + 7) == WordBit(y, b + 7)
  }

  lemma SameBytes(x: bv32, y: bv32, b: nat)
    requires b + 8 <= 32
    requires forall t :: 0 <= t < 32 ==> WordBit(x, t) == WordBit(y, t)
    ensures SameByte(x, y, b)
  {
  }

  lemma SameByte0(x: bv32, y: bv32)
    requires SameByte(x, y, 0)
    ensures x & 0xFF000000 == y & 0xFF000000
  {
  }

  lemma SameByte1(x: bv32, y: bv32)
    requires SameByte(x, y, 8)
    ensures x & 0x00FF0000 == y & 0x00FF0000
  {
  }

  lemma SameByte2(x: bv32, y: bv32)
    requires SameByte(x, y, 16)
    ensures x & 0x0000FF00 == y & 0x0000FF00
  {
  }

  lemma SameByte3(x: bv32, y: bv32)
    requires SameByte(x, y, 24)
    ensures x & 0x000000FF == y & 0x000000FF
  {
  }

  /** Two words with the same 32 columns are equal. */
  lemma WordsEqual(x: bv32, y: bv32)
    requires forall t :: 0 <= t < 32 ==> WordBit(x, t) == WordBit(y, t)
    ensures x == y
  {
    SameBytes(x, y, 0);
    SameBytes(x, y, 8);
    SameBytes(x, y, 16);
    SameBytes(x, y, 24);
    SameByte0(x, y);
    SameByte1(x, y);
    SameByte2(x, y);
    SameByte3(x, y);
  }
}
