/**
 * Tiled binary matrix multiplication.  A is m x n and B is n x k, both
 * bit-packed; cell (r, c) of the product is the number of t < n on which
 * bit (r, t) of A equals bit (t, c) of B (an xnor-popcount dot product).
 * binaryMatrixMul computes it 32 x 32 blocks at a time through fragments,
 * a transposed fragment of B and an accumulator; fastBinaryMatrixMul
 * thresholds the same counts against signCmp into a bit-packed result;
 * binarizeMatrix thresholds an integer matrix.
 */
module Matmul {
  import opened Words
  import opened BitMatrix
  import opened Transpose
  import opened Fragments
  import opened Kernels

  /** The operands of an m x n by n x k product: whole fragments, packed in their buffers. */
  predicate Operands(lenA: nat, lenB: nat, m: nat, n: nat, k: nat)
  {
    m % 32 == 0 && n % 32 == 0 && k % 32 == 0 && FitsMatrix(lenA, m, n) && FitsMatrix(lenB, n, k)
  }

  /** 1 when bit (r, t) of A equals bit (t, c) of B, 0 otherwise. */
  function BitsAgree(a: seq<bv32>, b: seq<bv32>, m: nat, n: nat, k: nat, r: nat, c: nat, t: nat): nat
    requires Operands(|a|, |b|, m, n, k) && r < m && c < k && t < n
  {
    FitsMatrixBit(|a|, m, n, r, t);
    FitsMatrixBit(|b|, n, k, t, c);
    if GetBit(a, r, t, n) == GetBit(b, t, c, k) then 1 else 0
  }

  /** BitsAgree at dot-product column base + t. */
  function AgreeAt(a: seq<bv32>, b: seq<bv32>, m: nat, n: nat, k: nat, r: nat, c: nat, base: nat, t: nat): nat
    requires Operands(|a|, |b|, m, n, k) && r < m && c < k && base + t < n
  {
    BitsAgree(a, b, m, n, k, r, c, base + t)
  }

  /** The number of t < count with getBit(a, r, t, n) == getBit(b, t, c, k). */
  function AgreeCount(a: seq<bv32>, b: seq<bv32>, m: nat, n: nat, k: nat, r: nat, c: nat, count: nat): (res: nat)
    requires Operands(|a|, |b|, m, n, k) && r < m && c < k && count <= n
    ensures res <= count
  {
    if count == 0 then 0 else AgreeCount(a, b, m, n, k, r, c, count - 1) + BitsAgree(a, b, m, n, k, r, c, count - 1)
  }

  /**
   * Counting u more columns from base adds the agreements of two words x
   * and y over their first u columns, when column base + t of the dot
   * product is column t of x and of y.
   */
  lemma {:induction false} CountSplit(a: seq<bv32>, b: seq<bv32>, m: nat, n: nat, k: nat, r: nat, c: nat, base: nat,
                                      x: bv32, y: bv32, u: nat)
    requires Operands(|a|, |b|, m, n, k) && r < m && c < k && u <= FRAG && base + u <= n
    requires forall t {:trigger AgreeAt(a, b, m, n, k, r, c, base, t)} :: 0 <= t < u ==> AgreeAt(a, b, m, n, k, r, c, base, t) == Agree(x, y, t)
    ensures AgreeCount(a, b, m, n, k, r, c, base + u) == AgreeCount(a, b, m, n, k, r, c, base) + EqualBits(x, y, u)
  {
    if u > 0 {
      var t := u - 1;
      CountSplit(a, b, m, n, k, r, c, base, x, y, t);
      assert AgreeAt(a, b, m, n, k, r, c, base, t) == Agree(x, y, t);
      assert AgreeCount(a, b, m, n, k, r, c, base + u) ==
        AgreeCount(a, b, m, n, k, r, c, base + t) + BitsAgree(a, b, m, n, k, r, c, base + t);
    }
  }

  /** Column t of step i: bit t of the A fragment's row word against bit t of the transposed B fragment's word. */
  lemma AgreeStep(a: seq<bv32>, b: seq<bv32>, m: nat, n: nat, k: nat, blockRow: nat, blockCol: nat, i: nat,
                  aFrag: seq<bv32>, bT: seq<bv32>, row: nat, col: nat, t: nat)
    requires Operands(|a|, |b|, m, n, k)
    requires blockRow * FRAG + FRAG <= m && blockCol < k / 32 && i < n / 32 && row < FRAG && col < FRAG && t < FRAG
    requires FragmentFits(|a|, blockRow, i, n) && FragmentFits(|b|, i, blockCol, k)
    requires aFrag == FragmentOf(a, blockRow, i, n) && IsTranspose(bT, FragmentOf(b, i, blockCol, k))
    ensures i * FRAG + t < n
    ensures BitsAgree(a, b, m, n, k, blockRow * FRAG + row, blockCol * FRAG + col, i * FRAG + t) == Agree(aFrag[row], bT[col], t)
  {
    FragmentBit(a, m, n, blockRow, i, row, t);
    FragmentBit(b, n, k, i, blockCol, t, col);
    assert FragBit(bT, col, t) == FragBit(FragmentOf(b, i, blockCol, k), t, col);
  }

  /** All 32 columns of step i, at result cell (r, c) and dot-product column base. */
  lemma AgreeColumns(a: seq<bv32>, b: seq<bv32>, m: nat, n: nat, k: nat, blockRow: nat, blockCol: nat, i: nat,
                     aFrag: seq<bv32>, bT: seq<bv32>, row: nat, col: nat, r: nat, c: nat, base: nat)
    requires Operands(|a|, |b|, m, n, k)
    requires blockRow * FRAG + FRAG <= m && blockCol < k / 32 && i < n / 32 && row < FRAG && col < FRAG
    requires FragmentFits(|a|, blockRow, i, n) && FragmentFits(|b|, i, blockCol, k)
    requires aFrag == FragmentOf(a, blockRow, i, n) && IsTranspose(bT, FragmentOf(b, i, blockCol, k))
    requires r == blockRow * FRAG + row && c == blockCol * FRAG + col && base == i * FRAG
    ensures r < m && c < k && base + FRAG <= n
    ensures forall t {:trigger AgreeAt(a, b, m, n, k, r, c, base, t)} :: 0 <= t < FRAG ==> AgreeAt(a, b, m, n, k, r, c, base, t) == Agree(aFrag[row], bT[col], t)
  {
    NextFragment(i, n);
    NextFragment(blockCol, k);
    forall t | 0 <= t < FRAG
      ensures AgreeAt(a, b, m, n, k, r, c, base, t) == Agree(aFrag[row], bT[col], t)
    {
      AgreeStep(a, b, m, n, k, blockRow, blockCol, i, aFrag, bT, row, col, t);
    }
  }

  /**
   * One binaryBlockMatrixMul step extends the count of cell (r, c) by the
   * next 32 columns, when those columns are the bits of the words x and y.
   */
  lemma AccumulateStep(a: seq<bv32>, b: seq<bv32>, m: nat, n: nat, k: nat, r: nat, c: nat, base: nat,
                       x: bv32, y: bv32, before: U32, after: U32)
    requires Operands(|a|, |b|, m, n, k) && r < m && c < k && base + FRAG <= n
    requires forall t {:trigger AgreeAt(a, b, m, n, k, r, c, base, t)} :: 0 <= t < FRAG ==> AgreeAt(a, b, m, n, k, r, c, base, t) == Agree(x, y, t)
    requires before == AgreeCount(a, b, m, n, k, r, c, base)
    requires after == Add32(before, Mul32(x, y))
    ensures after == AgreeCount(a, b, m, n, k, r, c, base + FRAG)
  {
    CountSplit(a, b, m, n, k, r, c, base, x, y, FRAG);
    ColumnsFitInt(|a|, m, n);
    AddCount(before, after, x, y, n);
  }

  /** One binaryBlockMatrixMul step extends the count of accumulator cell (row, col) by the next 32 columns. */
  lemma AccumulateCell(a: seq<bv32>, b: seq<bv32>, m: nat, n: nat, k: nat, blockRow: nat, blockCol: nat, i: nat,
                       aFrag: seq<bv32>, bT: seq<bv32>, row: nat, col: nat, before: U32, after: U32)
    requires Operands(|a|, |b|, m, n, k)
    requires blockRow * FRAG + FRAG <= m && blockCol < k / 32 && i < n / 32 && row < FRAG && col < FRAG
    requires FragmentFits(|a|, blockRow, i, n) && FragmentFits(|b|, i, blockCol, k)
    requires aFrag == FragmentOf(a, blockRow, i, n) && IsTranspose(bT, FragmentOf(b, i, blockCol, k))
    requires before == AgreeCount(a, b, m, n, k, blockRow * FRAG + row, blockCol * FRAG + col, i * FRAG)
    requires after == Add32(before, Mul32(aFrag[row], bT[col]))
    ensures after == AgreeCount(a, b, m, n, k, blockRow * FRAG + row, blockCol * FRAG + col, i * FRAG + FRAG)
  {
    var r, c, base := blockRow * FRAG + row, blockCol * FRAG + col, i * FRAG;
    AgreeColumns(a, b, m, n, k, blockRow, blockCol, i, aFrag, bT, row, col, r, c, base);
    AccumulateStep(a, b, m, n, k, r, c, base, aFrag[row], bT[col], before, after);
  }

  /** Adding the agreements of one word pair does not wrap while the count stays below the column count. */
  lemma AddCount(before: U32, after: U32, x: bv32, y: bv32, n: nat)
    requires n <= INT_LIMIT && before + FRAG <= n
    requires after == Add32(before, Mul32(x, y))
    ensures after == before + EqualBits(x, y, FRAG)
  {
  }

  /** A matrix with at least one row has fewer columns than 2^31. */
  lemma ColumnsFitInt(len: nat, m: nat, n: nat)
    requires FitsMatrix(len, m, n) && m > 0
    ensures n <= INT_LIMIT
  {
    MulMonotone(1, m, n);
  }

  /** The 32 columns of step i lie inside the n columns. */
  lemma NextFragment(i: nat, n: nat)
    requires n % 32 == 0 && i < n / 32
    ensures i * FRAG + FRAG <= n
  {
  }

  // ---------------------------------------------------------------------
  // Progress of the block loops over an m x k result

  /** Result entry j (row j / k, column j % k) is final once block (blockRow, blockCol) is reached. */
  predicate Finished(j: nat, k: nat, blockRow: nat, blockCol: nat)
  {
    k > 0 && (j / k < blockRow * FRAG || (j / k < blockRow * FRAG + FRAG && j % k < blockCol * FRAG))
  }

  lemma FinishedStep(j: nat, k: nat, blockRow: nat, blockCol: nat)
    requires blockCol * FRAG + FRAG <= k
    ensures Finished(j, k, blockRow, blockCol + 1) == (Finished(j, k, blockRow, blockCol) || InBlock(j, blockRow, blockCol, k))
  {
  }

  lemma FinishedRow(j: nat, k: nat, blockRow: nat)
    requires k % 32 == 0
    ensures Finished(j, k, blockRow, k / 32) == Finished(j, k, blockRow + 1, 0)
  {
  }

  lemma FinishedAll(j: nat, m: nat, k: nat)
    requires m % 32 == 0
    ensures Finished(j, k, m / 32, 0) == (k > 0 && j < m * k)
  {
    if k > 0 {
      if j < m * k {
        if j / k >= m {
          MulMonotone(m, j / k, k);
        }
      } else {
        if j / k < m {
          MulMonotone(j / k + 1, m, k);
        }
      }
    }
  }

  /** The final value of entry j of the product. */
  function ProductAt(a: seq<bv32>, b: seq<bv32>, m: nat, n: nat, k: nat, j: nat): nat
    requires Operands(|a|, |b|, m, n, k) && k > 0 && j / k < m
  {
    DivMod(j, k);
    AgreeCount(a, b, m, n, k, j / k, j % k, n)
  }

  /**
   * The result after the block loops have reached block (blockRow, blockCol):
   * the finished entries hold their product value, all others their value
   * before the call.
   */
  predicate Progress(res: seq<U32>, old0: seq<U32>, a: seq<bv32>, b: seq<bv32>, m: nat, n: nat, k: nat, blockRow: nat, blockCol: nat)
    requires Operands(|a|, |b|, m, n, k) && blockRow * FRAG <= m && (blockCol > 0 ==> blockRow * FRAG + FRAG <= m)
  {
    |res| == |old0| &&
    forall j :: 0 <= j < |res| ==> res[j] == if Finished(j, k, blockRow, blockCol) then ProductAt(a, b, m, n, k, j) else old0[j]
  }

  /** result holds the m x k product of A and B, row-major. */
  predicate IsProduct(result: seq<U32>, a: seq<bv32>, b: seq<bv32>, m: nat, n: nat, k: nat)
    requires Operands(|a|, |b|, m, n, k)
  {
    forall r, c :: 0 <= r < m && 0 <= c < k ==>
      Cell(r, c, k) < |result| && result[Cell(r, c, k)] == AgreeCount(a, b, m, n, k, r, c, n)
  }

  /** The row-major index of cell (r, c) of a k-column matrix. */
  function Cell(r: nat, c: nat, k: nat): nat
  {
    r * k + c
  }

  lemma ProductEntry(result: seq<U32>, a: seq<bv32>, b: seq<bv32>, m: nat, n: nat, k: nat, r: nat, c: nat)
    requires Operands(|a|, |b|, m, n, k) && m * k <= |result| && r < m && c < k
    requires forall j :: 0 <= j < |result| && Finished(j, k, m / 32, 0) ==> result[j] == ProductAt(a, b, m, n, k, j)
    ensures Cell(r, c, k) < |result| && result[Cell(r, c, k)] == AgreeCount(a, b, m, n, k, r, c, n)
  {
    MulMonotone(r + 1, m, k);
    BlockNumber(r, c, k);
    FinishedAll(r * k + c, m, k);
  }

  lemma ProductFromFinished(result: seq<U32>, old0: seq<U32>, a: seq<bv32>, b: seq<bv32>, m: nat, n: nat, k: nat)
    requires Operands(|a|, |b|, m, n, k) && m * k <= |result|
    requires Progress(result, old0, a, b, m, n, k, m / 32, 0)
    ensures IsProduct(result, a, b, m, n, k)
    ensures forall j :: m * k <= j < |result| ==> result[j] == old0[j]
  {
    forall r, c | 0 <= r < m && 0 <= c < k
      ensures Cell(r, c, k) < |result| && result[Cell(r, c, k)] == AgreeCount(a, b, m, n, k, r, c, n)
    {
      ProductEntry(result, a, b, m, n, k, r, c);
    }
    forall j | m * k <= j < |result|
      ensures result[j] == old0[j]
    {
      FinishedAll(j, m, k);
    }
  }

  /** storeAcc of a finished accumulator finishes the entries of its block. */
  lemma StoreBlockStep(result: array<U32>, before: seq<U32>, old0: seq<U32>, acc: array2<U32>,
                       a: seq<bv32>, b: seq<bv32>, m: nat, n: nat, k: nat, blockRow: nat, blockCol: nat)
    requires Operands(|a|, |b|, m, n, k) && blockRow * FRAG + FRAG <= m && blockCol * FRAG + FRAG <= k
    requires |before| == result.Length && IsAcc(acc)
    requires forall row, col :: 0 <= row < FRAG && 0 <= col < FRAG ==>
      acc[row, col] == AgreeCount(a, b, m, n, k, blockRow * FRAG + row, blockCol * FRAG + col, n)
    requires Progress(before, old0, a, b, m, n, k, blockRow, blockCol)
    requires forall j :: 0 <= j < result.Length ==>
      result[j] == if InBlock(j, blockRow, blockCol, k) then acc[j / k - blockRow * FRAG, j % k - blockCol * FRAG] else before[j]
    ensures Progress(result[..], old0, a, b, m, n, k, blockRow, blockCol + 1)
  {
    forall j | 0 <= j < result.Length
      ensures result[j] == if Finished(j, k, blockRow, blockCol + 1) then ProductAt(a, b, m, n, k, j) else old0[j]
    {
      FinishedStep(j, k, blockRow, blockCol);
    }
  }

  /** The accumulator's cells, row by row. */
  function AccRows(acc: array2<U32>): (s: seq<seq<U32>>)
    requires IsAcc(acc)
    reads acc
    ensures |s| == FRAG && forall row :: 0 <= row < FRAG ==> |s[row]| == FRAG
    ensures forall row, col :: 0 <= row < FRAG && 0 <= col < FRAG ==> s[row][col] == acc[row, col]
  {
    seq(FRAG, row reads acc requires 0 <= row < FRAG => seq(FRAG, col reads acc requires 0 <= col < FRAG => acc[row, col]))
  }

  /** The fragment buffers and the accumulator of binaryMatrixMul: fragment-sized and separate from A, B and each other. */
  predicate Scratch(a: array<bv32>, b: array<bv32>, aFrag: array<bv32>, bFrag: array<bv32>, bTransposed: array<bv32>, acc: array2<U32>)
  {
    aFrag.Length == FRAG && bFrag.Length == FRAG && bTransposed.Length == FRAG && IsAcc(acc) &&
    aFrag != a && aFrag != b && bFrag != a && bFrag != b && bTransposed != a && bTransposed != b &&
    aFrag != bFrag && aFrag != bTransposed && bFrag != bTransposed
  }

  /**
   * One step i of the innermost loop of binaryMatrixMul: load fragment
   * (blockRow, i) of A and fragment (i, blockCol) of B, transpose the latter
   * and accumulate, which extends every count by the next 32 columns.
   */
  method AccumulateFragments(a: array<bv32>, b: array<bv32>, aFrag: array<bv32>, bFrag: array<bv32>, bTransposed: array<bv32>,
                             acc: array2<U32>, m: nat, n: nat, k: nat, blockRow: nat, blockCol: nat, i: nat)
    requires Operands(a.Length, b.Length, m, n, k) && blockRow * FRAG + FRAG <= m && blockCol < k / 32 && i < n / 32
    requires Scratch(a, b, aFrag, bFrag, bTransposed, acc)
    requires forall row, col :: 0 <= row < FRAG && 0 <= col < FRAG ==>
      acc[row, col] == AgreeCount(a[..], b[..], m, n, k, blockRow * FRAG + row, blockCol * FRAG + col, i * FRAG)
    modifies aFrag, bFrag, bTransposed, acc
    ensures forall row, col :: 0 <= row < FRAG && 0 <= col < FRAG ==>
      acc[row, col] == AgreeCount(a[..], b[..], m, n, k, blockRow * FRAG + row, blockCol * FRAG + col, i * FRAG + FRAG)
  {
    ghost var sa, sb := a[..], b[..];
    MulNonneg(blockRow, FRAG);
    MulNonneg(blockCol, FRAG);
    MulNonneg(i, FRAG);
    MatrixFragmentFits(a.Length, m, n, blockRow, i);
    MatrixFragmentFits(b.Length, n, k, i, blockCol);
    LoadFragment(aFrag, 0, a, blockRow, i, n);
    LoadFragment(bFrag, 0, b, i, blockCol, k);
    assert aFrag[..] == FragmentOf(sa, blockRow, i, n);
    assert bFrag[..] == FragmentOf(sb, i, blockCol, k);
    TransposeBinaryFragment(bFrag, bTransposed);
    ghost var accBefore := AccRows(acc);
    BinaryBlockMatrixMul(aFrag, bTransposed, acc);
    forall row, col | 0 <= row < FRAG && 0 <= col < FRAG
      ensures acc[row, col] == AgreeCount(sa, sb, m, n, k, blockRow * FRAG + row, blockCol * FRAG + col, i * FRAG + FRAG)
    {
      AccumulateCell(sa, sb, m, n, k, blockRow, blockCol, i, aFrag[..], bTransposed[..], row, col,
                     accBefore[row][col], acc[row, col]);
    }
    assert a[..] == sa && b[..] == sb;
  }

  /**
   * The innermost loop of binaryMatrixMul for output block (blockRow, blockCol):
   * the accumulator is cleared and every step i accumulates, so that
   * afterwards cell (row, col) holds the whole dot product.
   */
  method AccumulateBlock(a: array<bv32>, b: array<bv32>, aFrag: array<bv32>, bFrag: array<bv32>, bTransposed: array<bv32>,
                         acc: array2<U32>, m: nat, n: nat, k: nat, blockRow: nat, blockCol: nat)
    requires Operands(a.Length, b.Length, m, n, k) && blockRow * FRAG + FRAG <= m && blockCol < k / 32
    requires Scratch(a, b, aFrag, bFrag, bTransposed, acc)
    modifies aFrag, bFrag, bTransposed, acc
    ensures forall row, col :: 0 <= row < FRAG && 0 <= col < FRAG ==>
      acc[row, col] == AgreeCount(a[..], b[..], m, n, k, blockRow * FRAG + row, blockCol * FRAG + col, n)
  {
    FillAccWithZero(acc);
    var blockN := n / FRAG;
    for i := 0 to blockN
      invariant forall row, col :: 0 <= row < FRAG && 0 <= col < FRAG ==>
        acc[row, col] == AgreeCount(a[..], b[..], m, n, k, blockRow * FRAG + row, blockCol * FRAG + col, i * FRAG)
    {
      AccumulateFragments(a, b, aFrag, bFrag, bTransposed, acc, m, n, k, blockRow, blockCol, i);
    }
    DivMod(n, FRAG);
  }

  /**
   * The body of binaryMatrixMul's block loops: accumulate block (blockRow,
   * blockCol) and store it, which finishes the entries of that block.
   */
  method MultiplyBlock(a: array<bv32>, b: array<bv32>, result: array<U32>, aFrag: array<bv32>, bFrag: array<bv32>, bTransposed: array<bv32>,
                       acc: array2<U32>, m: nat, n: nat, k: nat, blockRow: nat, blockCol: nat, ghost old0: seq<U32>)
    requires Operands(a.Length, b.Length, m, n, k) && blockRow * FRAG + FRAG <= m && blockCol < k / 32
    requires m * k <= result.Length && m * k <= INT_LIMIT && |old0| == result.Length
    requires a as object != result && b as object != result
    requires Scratch(a, b, aFrag, bFrag, bTransposed, acc)
    requires Progress(result[..], old0, a[..], b[..], m, n, k, blockRow, blockCol)
    modifies result, aFrag, bFrag, bTransposed, acc
    ensures Progress(result[..], old0, a[..], b[..], m, n, k, blockRow, blockCol + 1)
  {
    ghost var sa, sb, before := a[..], b[..], result[..];
    AccumulateBlock(a, b, aFrag, bFrag, bTransposed, acc, m, n, k, blockRow, blockCol);
    MulMonotone(blockRow * FRAG + FRAG, m, k);
    StoreAcc(acc, result, blockRow, blockCol, k);
    StoreBlockStep(result, before, old0, acc, sa, sb, m, n, k, blockRow, blockCol);
    assert a[..] == sa && b[..] == sb;
  }

  /** One pass of binaryMatrixMul's blockRow loop: every block of block row blockRow is finished. */
  method MultiplyBlockRow(a: array<bv32>, b: array<bv32>, result: array<U32>, aFrag: array<bv32>, bFrag: array<bv32>, bTransposed: array<bv32>,
                          acc: array2<U32>, m: nat, n: nat, k: nat, blockRow: nat, ghost old0: seq<U32>)
    requires Operands(a.Length, b.Length, m, n, k) && blockRow * FRAG + FRAG <= m
    requires m * k <= result.Length && m * k <= INT_LIMIT && |old0| == result.Length
    requires a as object != result && b as object != result
    requires Scratch(a, b, aFrag, bFrag, bTransposed, acc)
    requires Progress(result[..], old0, a[..], b[..], m, n, k, blockRow, 0)
    modifies result, aFrag, bFrag, bTransposed, acc
    ensures Progress(result[..], old0, a[..], b[..], m, n, k, blockRow + 1, 0)
  {
    var blockK := k / FRAG;
    for blockCol := 0 to blockK
      invariant Progress(result[..], old0, a[..], b[..], m, n, k, blockRow, blockCol)
    {
      MultiplyBlock(a, b, result, aFrag, bFrag, bTransposed, acc, m, n, k, blockRow, blockCol, old0);
    }
    ProgressRow(result[..], old0, a[..], b[..], m, n, k, blockRow);
  }

  /** Before the first block nothing is finished. */
  lemma ProgressStart(old0: seq<U32>, a: seq<bv32>, b: seq<bv32>, m: nat, n: nat, k: nat)
    requires Operands(|a|, |b|, m, n, k)
    ensures Progress(old0, old0, a, b, m, n, k, 0, 0)
  {
    forall j | 0 <= j < |old0|
      ensures !Finished(j, k, 0, 0)
    {
      if k > 0 {
        DivMod(j, k);
      }
    }
  }

  /** Finishing the last block of a block row is reaching the start of the next one. */
  lemma ProgressRow(res: seq<U32>, old0: seq<U32>, a: seq<bv32>, b: seq<bv32>, m: nat, n: nat, k: nat, blockRow: nat)
    requires Operands(|a|, |b|, m, n, k) && blockRow * FRAG + FRAG <= m
    requires Progress(res, old0, a, b, m, n, k, blockRow, k / FRAG)
    ensures Progress(res, old0, a, b, m, n, k, blockRow + 1, 0)
  {
    forall j | 0 <= j < |res|
      ensures Finished(j, k, blockRow, k / FRAG) == Finished(j, k, blockRow + 1, 0)
    {
      FinishedRow(j, k, blockRow);
    }
  }

  /**
   * binaryMatrixMul: for m, n and k multiples of 32, entry r * k + c of
   * result is the number of t < n with getBit(a, r, t, n) == getBit(b, t, c, k);
   * the entries after the m x k product are untouched.
   */
  method BinaryMatrixMul(a: array<bv32>, b: array<bv32>, result: array<U32>, m: nat, n: nat, k: nat)
    requires Operands(a.Length, b.Length, m, n, k)
    requires m * k <= result.Length && m * k <= INT_LIMIT
    requires a as object != result && b as object != result
    modifies result
    ensures IsProduct(result[..], a[..], b[..], m, n, k)
    ensures forall j :: m * k <= j < result.Length ==> result[j] == old(result[j])
  {
    var blockM := m / FRAG;
    var aFrag := new bv32[FRAG];
    var bFrag := new bv32[FRAG];
    var bTransposed := new bv32[FRAG];
    var acc := new U32[FRAG, FRAG];
    ghost var old0, sa, sb := result[..], a[..], b[..];
    ProgressStart(old0, sa, sb, m, n, k);
    for blockRow := 0 to blockM
      invariant a[..] == sa && b[..] == sb
      invariant Progress(result[..], old0, sa, sb, m, n, k, blockRow, 0)
    {
      MultiplyBlockRow(a, b, result, aFrag, bFrag, bTransposed, acc, m, n, k, blockRow, old0);
    }
    ProductFromFinished(result[..], old0, sa, sb, m, n, k);
  }
}
