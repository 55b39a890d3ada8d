/**
 * The 32 x 32 fragment kernels and the accumulator helpers.  An accumulator
 * (BinaryAcc_t) is a 32 x 32 grid of uint32_t; `acc[row][col] += x` wraps
 * modulo 2^32, and every comparison with signCmp is between unsigned 32-bit
 * values.  Integer matrices (Matrix_t) are arrays of uint32_t.
 */
module Kernels {
  import opened Words
  import opened BitMatrix

  const TWO32: int := 0x1_0000_0000

  type U32 = x: int | 0 <= x < 0x1_0000_0000

  /** uint32_t addition: the sum modulo 2^32. */
  function Add32(x: U32, y: U32): (r: U32)
    ensures r == x + y || r == x + y - TWO32
    ensures x + y < TWO32 ==> r == x + y
  {
    (x + y) % TWO32
  }

  /**
   * binaryMul as a uint32_t: the popcount of the xnor, which is the number of
   * equal bits and so never exceeds 32.
   */
  function Mul32(a: bv32, b: bv32): (r: U32)
    ensures r == EqualBits(a, b, 32)
  {
    BinaryMulRange(a, b);
    BinaryMulCountsEqualBits(a, b);
    BinaryMul(a, b)
  }

  predicate IsAcc(acc: array2<U32>)
  {
    acc.Length0 == FRAG && acc.Length1 == FRAG
  }

  /**
   * binaryBlockMatrixMul: every cell of the accumulator grows by the number
   * of equal bits between row word a[row] and row word b[col] of the
   * transposed second operand, modulo 2^32.
   */
  method BinaryBlockMatrixMul(a: array<bv32>, b: array<bv32>, acc: array2<U32>)
    requires a.Length == FRAG && b.Length == FRAG && IsAcc(acc)
    modifies acc
    ensures forall row, col :: 0 <= row < FRAG && 0 <= col < FRAG ==>
      acc[row, col] == Add32(old(acc[row, col]), Mul32(a[row], b[col]))
  {
    for row := 0 to FRAG
      invariant forall r, c :: 0 <= r < FRAG && 0 <= c < FRAG ==>
        acc[r, c] == if r < row then Add32(old(acc[r, c]), Mul32(a[r], b[c])) else old(acc[r, c])
    {
      for col := 0 to FRAG
        invariant forall r, c :: 0 <= r < FRAG && 0 <= c < FRAG ==>
          acc[r, c] == if r < row || (r == row && c < col) then Add32(old(acc[r, c]), Mul32(a[r], b[c])) else old(acc[r, c])
      {
        acc[row, col] := Add32(acc[row, col], Mul32(a[row], b[col]));
      }
    }
  }

  /**
   * fastBinaryBlockMatrixMul: the same accumulation; when store is set, bit
   * (row, col) of c is then set exactly when the new accumulator cell exceeds
   * signCmp, and when store is clear c is not touched.
   */
  method FastBinaryBlockMatrixMul(a: array<bv32>, b: array<bv32>, acc: array2<U32>, c: array<bv32>, signCmp: U32, store: bool)
    requires a.Length == FRAG && b.Length == FRAG && c.Length == FRAG && IsAcc(acc)
    requires c != a && c != b
    modifies acc, c
    ensures forall row, col :: 0 <= row < FRAG && 0 <= col < FRAG ==>
      acc[row, col] == Add32(old(acc[row, col]), Mul32(a[row], b[col]))
    ensures store ==> forall row, col :: 0 <= row < FRAG && 0 <= col < FRAG ==>
      FragBit(c[..], row, col) == (acc[row, col] > signCmp)
    ensures !store ==> c[..] == old(c[..])
  {
    for row := 0 to FRAG
      invariant forall r, k :: 0 <= r < FRAG && 0 <= k < FRAG ==>
        acc[r, k] == if r < row then Add32(old(acc[r, k]), Mul32(a[r], b[k])) else old(acc[r, k])
      invariant store ==> forall r, k :: 0 <= r < row && 0 <= k < FRAG ==> FragBit(c[..], r, k) == (acc[r, k] > signCmp)
      invariant !store ==> c[..] == old(c[..])
    {
      for col := 0 to FRAG
        invariant forall r, k :: 0 <= r < FRAG && 0 <= k < FRAG ==>
          acc[r, k] == if r < row || (r == row && k < col) then Add32(old(acc[r, k]), Mul32(a[r], b[k])) else old(acc[r, k])
        invariant store ==> forall r, k :: 0 <= r < row && 0 <= k < FRAG ==> FragBit(c[..], r, k) == (acc[r, k] > signCmp)
        invariant store ==> forall k :: 0 <= k < col ==> FragBit(c[..], row, k) == (acc[row, k] > signCmp)
        invariant !store ==> c[..] == old(c[..])
      {
        acc[row, col] := Add32(acc[row, col], Mul32(a[row], b[col]));
        if store {
          var bit := acc[row, col] > signCmp;
          FragSetBit(c[..], row, col, bit);
          SetBit(c, row, col, bit, FRAG);
        }
      }
    }
  }

  /** fillAccWithZero: every accumulator cell becomes 0. */
  method FillAccWithZero(acc: array2<U32>)
    requires IsAcc(acc)
    modifies acc
    ensures forall row, col :: 0 <= row < FRAG && 0 <= col < FRAG ==> acc[row, col] == 0
  {
    for row := 0 to FRAG
      invariant forall r, c :: 0 <= r < row && 0 <= c < FRAG ==> acc[r, c] == 0
    {
      for col := 0 to FRAG
        invariant forall r, c :: 0 <= r < row && 0 <= c < FRAG ==> acc[r, c] == 0
        invariant forall c :: 0 <= c < col ==> acc[row, c] == 0
      {
        acc[row, col] := 0;
      }
    }
  }

  /** The block (blockRow, blockCol) of an n-column integer matrix lies inside mat, at `int` indices. */
  predicate AccBlockFits(len: nat, blockRow: nat, blockCol: nat, n: nat)
  {
    blockCol * FRAG + FRAG <= n && (blockRow * FRAG + FRAG) * n <= len && (blockRow * FRAG + FRAG) * n <= INT_LIMIT
  }

  /** Entry j of an n-column matrix lies in block (blockRow, blockCol). */
  predicate InBlock(j: nat, blockRow: nat, blockCol: nat, n: nat)
    requires n > 0
  {
    blockRow * FRAG <= j / n < blockRow * FRAG + FRAG && blockCol * FRAG <= j % n < blockCol * FRAG + FRAG
  }

  /** The matrix entry storeAcc writes cell (row, col) of the accumulator to. */
  function AccIndex(blockRow: nat, blockCol: nat, n: nat, row: nat, col: nat): nat
  {
    blockRow * FRAG * n + row * n + blockCol * FRAG + col
  }

  lemma AccIndexPlace(blockRow: nat, blockCol: nat, n: nat, row: nat, col: nat)
    requires blockCol * FRAG + FRAG <= n && row < FRAG && col < FRAG
    ensures AccIndex(blockRow, blockCol, n, row, col) / n == blockRow * FRAG + row
    ensures AccIndex(blockRow, blockCol, n, row, col) % n == blockCol * FRAG + col
    ensures AccIndex(blockRow, blockCol, n, row, col) < (blockRow * FRAG + row + 1) * n
  {
    MulSucc(blockRow * FRAG, n);
    assert AccIndex(blockRow, blockCol, n, row, col) == (blockRow * FRAG + row) * n + (blockCol * FRAG + col);
    BlockNumber(blockRow * FRAG + row, blockCol * FRAG + col, n);
    MulSucc(blockRow * FRAG + row, n);
  }

  /** Entry j has been written once storeAcc has reached cell (row, col) of the accumulator. */
  predicate Written(j: nat, blockRow: nat, blockCol: nat, n: nat, row: nat, col: nat)
    requires n > 0
  {
    InBlock(j, blockRow, blockCol, n) &&
    (j / n < blockRow * FRAG + row || (j / n == blockRow * FRAG + row && j % n < blockCol * FRAG + col))
  }

  lemma DivModEq(j: nat, k: nat, n: nat)
    requires n > 0 && j / n == k / n && j % n == k % n
    ensures j == k
  {
    assert j == (j / n) * n + j % n;
    assert k == (k / n) * n + k % n;
  }

  /** Writing cell (row, col) adds exactly the entry AccIndex(row, col) to the written ones. */
  lemma WrittenStep(j: nat, blockRow: nat, blockCol: nat, n: nat, row: nat, col: nat)
    requires blockCol * FRAG + FRAG <= n && row < FRAG && col < FRAG
    ensures Written(j, blockRow, blockCol, n, row, col + 1) ==
      (Written(j, blockRow, blockCol, n, row, col) || j == AccIndex(blockRow, blockCol, n, row, col))
  {
    AccIndexPlace(blockRow, blockCol, n, row, col);
    var idx := AccIndex(blockRow, blockCol, n, row, col);
    if j / n == idx / n && j % n == idx % n {
      DivModEq(j, idx, n);
    }
  }

  /**
   * storeAcc: the block (blockRow, blockCol) of the n-column matrix receives
   * the accumulator, cell (row, col) at row blockRow * 32 + row and column
   * blockCol * 32 + col; every entry outside the block is unchanged.
   */
  method StoreAcc(acc: array2<U32>, mat: array<U32>, blockRow: nat, blockCol: nat, n: nat)
    requires IsAcc(acc) && AccBlockFits(mat.Length, blockRow, blockCol, n)
    modifies mat
    ensures forall j :: 0 <= j < mat.Length ==>
      mat[j] == if InBlock(j, blockRow, blockCol, n) then acc[j / n - blockRow * FRAG, j % n - blockCol * FRAG] else old(mat[j])
  {
    var blockRowOffset := blockRow * FRAG * n;
    var blockColOffset := blockCol * FRAG;
    for row := 0 to FRAG
      invariant forall j :: 0 <= j < mat.Length ==>
        mat[j] == if Written(j, blockRow, blockCol, n, row, 0)
          then acc[j / n - blockRow * FRAG, j % n - blockCol * FRAG] else old(mat[j])
    {
      for col := 0 to FRAG
        invariant forall j :: 0 <= j < mat.Length ==>
          mat[j] == if Written(j, blockRow, blockCol, n, row, col)
            then acc[j / n - blockRow * FRAG, j % n - blockCol * FRAG] else old(mat[j])
      {
        AccIndexPlace(blockRow, blockCol, n, row, col);
        MulMonotone(blockRow * FRAG + row + 1, blockRow * FRAG + FRAG, n);
        forall j | 0 <= j < mat.Length
          ensures Written(j, blockRow, blockCol, n, row, col + 1) ==
            (Written(j, blockRow, blockCol, n, row, col) || j == AccIndex(blockRow, blockCol, n, row, col))
        {
          WrittenStep(j, blockRow, blockCol, n, row, col);
        }
        mat[blockRowOffset + row * n + blockColOffset + col] := acc[row, col];
      }
    }
  }
}
