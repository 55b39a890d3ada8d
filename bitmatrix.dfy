/**
 * Bit-packed binary matrices: a matrix with N columns stores bit (row, col)
 * at linear index row * N + col, in word index / 32, column index % 32 of
 * that word (most significant bit first).  getBit reads such a bit and
 * setBit writes it in place.
 */
module BitMatrix {
  import opened Words

  /** The C code computes the bit index as an `int`: it must stay non-negative. */
  const INT_LIMIT: int := 0x8000_0000

  /** Bit (row, col) of an N-column matrix exists in a buffer of the given length. */
  predicate ValidBit(len: nat, row: nat, col: nat, n: nat)
  {
    row * n + col < INT_LIMIT && (row * n + col) / 32 < len
  }

  /**
   * getBit: bit (row, col) of the N-column bit-packed matrix mat: column
   * index % 32 of word index / 32 (GetBitShifted relates it to the C test).
   */
  function GetBit(mat: seq<bv32>, row: nat, col: nat, n: nat): bool
    requires ValidBit(|mat|, row, col, n)
  {
    var bitIndex := row * n + col;
    var wordIndex := bitIndex / 32;
    var bitPos := bitIndex % 32;
    WordBit(mat[wordIndex], bitPos)
  }

  /** getBit is the C test `(mat[wordIndex] >> (31 - bitPos)) & 1` on the word that holds the bit. */
  lemma GetBitShifted(mat: seq<bv32>, row: nat, col: nat, n: nat)
    requires ValidBit(|mat|, row, col, n)
    ensures GetBit(mat, row, col, n) == LowBit(mat[(row * n + col) / 32], Sh((row * n + col) % 32))
  {
    var bitIndex := row * n + col;
    ShiftedColumn(mat[bitIndex / 32], bitIndex % 32, Sh(bitIndex % 32));
  }

  /**
   * The word x after setBit's update of column t: `x |= 1u << (31 - t)`
   * when v is set, `x &= ~(1u << (31 - t))` otherwise.
   */
  function WithBit(x: bv32, t: nat, v: bool): bv32
    requires t < 32
  {
    if v then x | ColumnMask(t) else x & !ColumnMask(t)
  }

  lemma SetMasked(x: bv32, m: bv32)
    requires OneHot(m)
    ensures (x | m) & m != 0
  {
  }

  lemma SetMaskedOther(x: bv32, m: bv32, m2: bv32)
    requires OneHot(m) && OneHot(m2) && m != m2
    ensures ((x | m) & m2 != 0) == (x & m2 != 0)
  {
  }

  lemma ClearMasked(x: bv32, m: bv32)
    requires OneHot(m)
    ensures (x & !m) & m == 0
  {
  }

  lemma ClearMaskedOther(x: bv32, m: bv32, m2: bv32)
    requires OneHot(m) && OneHot(m2) && m != m2
    ensures ((x & !m) & m2 != 0) == (x & m2 != 0)
  {
  }

  lemma WithBitSame(x: bv32, t: nat, v: bool)
    requires t < 32
    ensures WordBit(WithBit(x, t, v), t) == v
  {
    ColumnMaskOneHot(t);
    if v {
      SetMasked(x, ColumnMask(t));
    } else {
      ClearMasked(x, ColumnMask(t));
    }
  }

  lemma SetOther(x: bv32, t: nat, u: nat)
    requires t < 32 && u < 32 && u != t
    ensures WordBit(x | ColumnMask(t), u) == WordBit(x, u)
  {
    ColumnMaskOneHot(t);
    ColumnMaskOneHot(u);
    ColumnMasksDistinct(t, u);
    SetMaskedOther(x, ColumnMask(t), ColumnMask(u));
  }

  lemma ClearOther(x: bv32, t: nat, u: nat)
    requires t < 32 && u < 32 && u != t
    ensures WordBit(x & !ColumnMask(t), u) == WordBit(x, u)
  {
    ColumnMaskOneHot(t);
    ColumnMaskOneHot(u);
    ColumnMasksDistinct(t, u);
    ClearMaskedOther(x, ColumnMask(t), ColumnMask(u));
  }

  lemma WithBitOther(x: bv32, t: nat, v: bool, u: nat)
    requires t < 32 && u < 32 && u != t
    ensures WordBit(WithBit(x, t, v), u) == WordBit(x, u)
  {
    if v {
      SetOther(x, t, u);
    } else {
      ClearOther(x, t, u);
    }
  }

  /** WithBit changes column t to v and keeps every other column. */
  lemma WithBitColumns(x: bv32, t: nat, v: bool, u: nat)
    requires t < 32 && u < 32
    ensures WordBit(WithBit(x, t, v), u) == if u == t then v else WordBit(x, u)
  {
    if u == t {
      WithBitSame(x, t, v);
    } else {
      WithBitOther(x, t, v, u);
    }
  }

  /** The matrix after setBit(mat, row, col, value, N). */
  function SetBitSpec(mat: seq<bv32>, row: nat, col: nat, value: bool, n: nat): (res: seq<bv32>)
    requires ValidBit(|mat|, row, col, n)
    ensures |res| == |mat|
  {
    var bitIndex := row * n + col;
    mat[bitIndex / 32 := WithBit(mat[bitIndex / 32], bitIndex % 32, value)]
  }

  /** setBit: write bit (row, col) of the N-column matrix in place. */
  method SetBit(mat: array<bv32>, row: nat, col: nat, value: bool, n: nat)
    requires ValidBit(mat.Length, row, col, n)
    modifies mat
    ensures mat[..] == SetBitSpec(old(mat[..]), row, col, value, n)
  {
    var bitIndex := row * n + col;
    var wordIndex := bitIndex / 32;
    var bitPos := bitIndex % 32;
    mat[wordIndex] := WithBit(mat[wordIndex], bitPos, value);
  }

  /**
   * setBit writes exactly one bit: column index % 32 of word index / 32
   * becomes value, and every other bit of every word is unchanged.
   */
  lemma SetBitWritesOneBit(mat: seq<bv32>, row: nat, col: nat, value: bool, n: nat, i: nat, u: nat)
    requires ValidBit(|mat|, row, col, n)
    requires i < |mat| && u < 32
    ensures |SetBitSpec(mat, row, col, value, n)| == |mat|
    ensures WordBit(SetBitSpec(mat, row, col, value, n)[i], u) ==
      if i == (row * n + col) / 32 && u == (row * n + col) % 32 then value else WordBit(mat[i], u)
  {
    var bitIndex := row * n + col;
    if i == bitIndex / 32 {
      WithBitColumns(mat[i], bitIndex % 32, value, u);
    }
  }

  /** Two cells of an N-column matrix share a bit index only if they are the same cell. */
  lemma LinearIndexInjective(r1: nat, c1: nat, r2: nat, c2: nat, n: nat)
    requires c1 < n && c2 < n
    requires r1 * n + c1 == r2 * n + c2
    ensures r1 == r2 && c1 == c2
  {
    if r1 < r2 {
      MulMonotone(r1 + 1, r2, n);
    } else if r2 < r1 {
      MulMonotone(r2 + 1, r1, n);
    }
  }

  lemma MulMonotone(a: nat, b: nat, n: nat)
    requires a <= b
    ensures a * n <= b * n
  {
  }

  lemma MulNonneg(a: nat, b: nat)
    ensures 0 <= a * b
  {
  }

  lemma MulSucc(a: nat, c: nat)
    ensures (a + 1) * c == a * c + c
  {
  }

  lemma DivMod(j: nat, k: nat)
    requires k > 0
    ensures 0 <= j / k && 0 <= j % k < k && j == (j / k) * k + j % k
  {
  }

  /** Division by cols recovers the block row and column from blockRow * cols + blockCol. */
  lemma BlockNumber(blockRow: nat, blockCol: nat, cols: nat)
    requires blockCol < cols
    ensures (blockRow * cols + blockCol) / cols == blockRow && (blockRow * cols + blockCol) % cols == blockCol
  {
    var x := blockRow * cols + blockCol;
    var q, r := x / cols, x % cols;
    assert x == q * cols + r;
    if q > blockRow {
      MulMonotone(blockRow + 1, q, cols);
    } else if q < blockRow {
      MulMonotone(q + 1, blockRow, cols);
    }
  }

  lemma DistinctIndexDistinctPlace(p: nat, q: nat)
    requires p != q
    ensures p / 32 != q / 32 || p % 32 != q % 32
  {
  }

  /** After setBit, getBit returns the value written and every other bit it returned before. */
  lemma GetAfterSetBit(mat: seq<bv32>, row: nat, col: nat, value: bool, n: nat, r: nat, c: nat)
    requires col < n && c < n
    requires ValidBit(|mat|, row, col, n) && ValidBit(|mat|, r, c, n)
    ensures GetBit(SetBitSpec(mat, row, col, value, n), r, c, n) ==
      if r == row && c == col then value else GetBit(mat, r, c, n)
  {
    if r == row && c == col {
      GetAfterSetSame(mat, row, col, value, n);
    } else {
      GetAfterSetOther(mat, row, col, value, n, r, c);
    }
  }

  lemma GetAfterSetSame(mat: seq<bv32>, row: nat, col: nat, value: bool, n: nat)
    requires ValidBit(|mat|, row, col, n)
    ensures GetBit(SetBitSpec(mat, row, col, value, n), row, col, n) == value
  {
    var p := row * n + col;
    SetBitWritesOneBit(mat, row, col, value, n, p / 32, p % 32);
  }

  lemma GetAfterSetOther(mat: seq<bv32>, row: nat, col: nat, value: bool, n: nat, r: nat, c: nat)
    requires col < n && c < n && (r != row || c != col)
    requires ValidBit(|mat|, row, col, n) && ValidBit(|mat|, r, c, n)
    ensures GetBit(SetBitSpec(mat, row, col, value, n), r, c, n) == GetBit(mat, r, c, n)
  {
    MulNonneg(r, n);
    MulNonneg(row, n);
    var p: nat, q: nat := r * n + c, row * n + col;
    assert p != q by {
      if p == q {
        LinearIndexInjective(r, c, row, col, n);
      }
    }
    var w, u := p / 32, p % 32;
    assert w != q / 32 || u != q % 32 by {
      DistinctIndexDistinctPlace(p, q);
    }
    assert WordBit(SetBitSpec(mat, row, col, value, n)[w], u) == WordBit(mat[w], u) by {
      SetBitWritesOneBit(mat, row, col, value, n, w, u);
    }
  }

  /** Every accessed bit of a rows x cols matrix lies in a buffer of len words, at an int index. */
  predicate FitsMatrix(len: nat, rows: nat, cols: nat)
  {
    rows * cols <= INT_LIMIT && rows * cols <= 32 * len
  }

  lemma FitsMatrixBit(len: nat, rows: nat, cols: nat, r: nat, c: nat)
    requires FitsMatrix(len, rows, cols) && r < rows && c < cols
    ensures ValidBit(len, r, c, cols)
  {
    MulMonotone(r + 1, rows, cols);
  }

  // ---------------------------------------------------------------------
  // Fragments: 32 x 32 bit blocks, one row per word

  /** Bit (r, c) of a fragment: column c of row word r. */
  predicate FragBit(f: seq<bv32>, r: nat, c: nat)
    requires r < |f| && c < FRAG
  {
    WordBit(f[r], c)
  }

  /** getBit on a fragment (row width 32) reads column c of word r. */
  lemma FragGetBit(f: seq<bv32>, r: nat, c: nat)
    requires |f| == FRAG && r < FRAG && c < FRAG
    ensures ValidBit(|f|, r, c, FRAG)
    ensures GetBit(f, r, c, FRAG) == FragBit(f, r, c)
  {
    assert (r * FRAG + c) / 32 == r && (r * FRAG + c) % 32 == c;
  }

  /** setBit on a fragment writes bit (r, c) and keeps the other 1023 bits. */
  lemma FragSetBit(f: seq<bv32>, r: nat, c: nat, v: bool)
    requires |f| == FRAG && r < FRAG && c < FRAG
    ensures ValidBit(|f|, r, c, FRAG)
    ensures |SetBitSpec(f, r, c, v, FRAG)| == FRAG
    ensures forall r2, c2 :: 0 <= r2 < FRAG && 0 <= c2 < FRAG ==>
      FragBit(SetBitSpec(f, r, c, v, FRAG), r2, c2) == if r2 == r && c2 == c then v else FragBit(f, r2, c2)
  {
    FragGetBit(f, r, c);
    forall r2, c2 | 0 <= r2 < FRAG && 0 <= c2 < FRAG
      ensures FragBit(SetBitSpec(f, r, c, v, FRAG), r2, c2) == if r2 == r && c2 == c then v else FragBit(f, r2, c2)
    {
      SetBitWritesOneBit(f, r, c, v, FRAG, r2, c2);
    }
  }
}
