/**
 * The thresholded product.  fastBinaryMatrixMul runs the block loops of
 * binaryMatrixMul but, on the last step of every block, its kernel writes
 * bit (row, col) of a result fragment when the finished count exceeds
 * signCmp, and the fragment is stored into the bit-packed m x k result c.
 * binarizeMatrix applies the same threshold to an integer matrix, so the
 * fast product is the binarized integer product.
 */
module FastMatmul {
  import opened Words
  import opened BitMatrix
  import opened Transpose
  import opened Fragments
  import opened Kernels
  import opened Matmul

  /** Bit (r, c) of the m x k result has been written once block (blockRow, blockCol) is reached. */
  predicate CellDone(r: nat, c: nat, blockRow: nat, blockCol: nat)
  {
    r < blockRow * FRAG || (r < blockRow * FRAG + FRAG && c < blockCol * FRAG)
  }

  /** Whether the count of cell (r, c) of the product exceeds signCmp. */
  predicate Above(a: seq<bv32>, b: seq<bv32>, m: nat, n: nat, k: nat, r: nat, c: nat, signCmp: U32)
    requires Operands(|a|, |b|, m, n, k) && r < m && c < k
  {
    AgreeCount(a, b, m, n, k, r, c, n) > signCmp
  }

  /**
   * c is the thresholded product: bit (r, c) of the m x k bit matrix is set
   * exactly when the number of t < n with getBit(a, r, t, n) == getBit(b, t, c, k)
   * exceeds signCmp (unsigned).
   */
  predicate IsSignProduct(c: seq<bv32>, a: seq<bv32>, b: seq<bv32>, m: nat, n: nat, k: nat, signCmp: U32)
    requires Operands(|a|, |b|, m, n, k)
  {
    forall r, col :: 0 <= r < m && 0 <= col < k ==>
      ValidBit(|c|, r, col, k) && GetBit(c, r, col, k) == Above(a, b, m, n, k, r, col, signCmp)
  }

  /** The state of c part-way through the block loops: finished bits are thresholded, the rest as before. */
  predicate SignProgress(c: seq<bv32>, old0: seq<bv32>, a: seq<bv32>, b: seq<bv32>, m: nat, n: nat, k: nat, signCmp: U32,
                         blockRow: nat, blockCol: nat)
    requires Operands(|a|, |b|, m, n, k)
  {
    |c| == |old0| &&
    (forall r, col :: 0 <= r < m && 0 <= col < k ==>
      ValidBit(|c|, r, col, k) &&
      GetBit(c, r, col, k) == if CellDone(r, col, blockRow, blockCol) then Above(a, b, m, n, k, r, col, signCmp) else GetBit(old0, r, col, k)) &&
    (forall w :: 0 <= w < |c| && m * k <= w * 32 ==> c[w] == old0[w])
  }

  /** The words of fragment (blockRow, blockCol) of an m x k matrix lie below bit m * k. */
  lemma FragmentWordsBelow(m: nat, k: nat, blockRow: nat, blockCol: nat, i: nat)
    requires k % 32 == 0 && blockRow * FRAG + FRAG <= m && blockCol < k / 32 && i < FRAG
    ensures WordIndex(blockRow, blockCol, k, i) * 32 < m * k
  {
    var x := blockRow * FRAG + i;
    var q := k / 32;
    assert k == q * 32;
    MulSucc(x, q);
    MulMonotone(x + 1, m, q);
    assert WordIndex(blockRow, blockCol, k, i) < m * q;
    assert m * k == (m * q) * 32;
  }

  /** storeFragment of a thresholded block fragment finishes the bits of that block. */
  lemma SignStoreStep(before: seq<bv32>, after: seq<bv32>, old0: seq<bv32>, cFrag: seq<bv32>,
                      a: seq<bv32>, b: seq<bv32>, m: nat, n: nat, k: nat, signCmp: U32, blockRow: nat, blockCol: nat)
    requires Operands(|a|, |b|, m, n, k) && FitsMatrix(|before|, m, k)
    requires blockRow * FRAG + FRAG <= m && blockCol < k / 32 && |cFrag| == FRAG
    requires forall row, col :: 0 <= row < FRAG && 0 <= col < FRAG ==>
      FragBit(cFrag, row, col) == Above(a, b, m, n, k, blockRow * FRAG + row, blockCol * FRAG + col, signCmp)
    requires SignProgress(before, old0, a, b, m, n, k, signCmp, blockRow, blockCol)
    requires FragmentFits(|before|, blockRow, blockCol, k) && after == StoreSpec(before, cFrag, blockRow, blockCol, k)
    ensures SignProgress(after, old0, a, b, m, n, k, signCmp, blockRow, blockCol + 1)
  {
    forall r, col | 0 <= r < m && 0 <= col < k
      ensures ValidBit(|after|, r, col, k) &&
        GetBit(after, r, col, k) == if CellDone(r, col, blockRow, blockCol + 1) then Above(a, b, m, n, k, r, col, signCmp) else GetBit(old0, r, col, k)
    {
      if blockRow * FRAG <= r < blockRow * FRAG + FRAG && blockCol * FRAG <= col < blockCol * FRAG + FRAG {
        StoreSetsBit(before, cFrag, m, k, blockRow, blockCol, r - blockRow * FRAG, col - blockCol * FRAG);
      } else {
        StoreKeepsBit(before, cFrag, m, k, blockRow, blockCol, r, col);
      }
    }
    StoreFragmentWrites(before, cFrag, blockRow, blockCol, k);
    forall w | 0 <= w < |after| && m * k <= w * 32
      ensures after[w] == old0[w]
    {
      forall i | 0 <= i < FRAG
        ensures w != WordIndex(blockRow, blockCol, k, i)
      {
        FragmentWordsBelow(m, k, blockRow, blockCol, i);
      }
    }
  }

  /** The fragment buffers of fastBinaryMatrixMul: those of binaryMatrixMul and a separate result fragment. */
  predicate FastScratch(a: array<bv32>, b: array<bv32>, aFrag: array<bv32>, bFrag: array<bv32>, bTransposed: array<bv32>,
                        cFrag: array<bv32>, acc: array2<U32>)
  {
    Scratch(a, b, aFrag, bFrag, bTransposed, acc) && cFrag.Length == FRAG &&
    cFrag != a && cFrag != b && cFrag != aFrag && cFrag != bFrag && cFrag != bTransposed
  }

  /**
   * One step i of fastBinaryMatrixMul's innermost loop: the accumulation of
   * binaryMatrixMul, and when store is set the thresholded finished counts
   * in cFrag; when store is clear cFrag is not touched.
   */
  method FastAccumulateFragments(a: array<bv32>, b: array<bv32>, aFrag: array<bv32>, bFrag: array<bv32>, bTransposed: array<bv32>,
                                 cFrag: array<bv32>, acc: array2<U32>, signCmp: U32, m: nat, n: nat, k: nat,
                                 blockRow: nat, blockCol: nat, i: nat, store: bool)
    requires Operands(a.Length, b.Length, m, n, k) && blockRow * FRAG + FRAG <= m && blockCol < k / 32 && i < n / 32
    requires FastScratch(a, b, aFrag, bFrag, bTransposed, cFrag, acc)
    requires forall row, col :: 0 <= row < FRAG && 0 <= col < FRAG ==>
      acc[row, col] == AgreeCount(a[..], b[..], m, n, k, blockRow * FRAG + row, blockCol * FRAG + col, i * FRAG)
    modifies aFrag, bFrag, bTransposed, acc, cFrag
    ensures forall row, col :: 0 <= row < FRAG && 0 <= col < FRAG ==>
      acc[row, col] == AgreeCount(a[..], b[..], m, n, k, blockRow * FRAG + row, blockCol * FRAG + col, i * FRAG + FRAG)
    ensures store ==> forall row, col :: 0 <= row < FRAG && 0 <= col < FRAG ==>
      FragBit(cFrag[..], row, col) == (AgreeCount(a[..], b[..], m, n, k, blockRow * FRAG + row, blockCol * FRAG + col, i * FRAG + FRAG) > signCmp)
    ensures !store ==> cFrag[..] == old(cFrag[..])
  {
    ghost var sa, sb := a[..], b[..];
    MulNonneg(blockRow, FRAG);
    MulNonneg(blockCol, FRAG);
    MulNonneg(i, FRAG);
    MatrixFragmentFits(a.Length, m, n, blockRow, i);
    MatrixFragmentFits(b.Length, n, k, i, blockCol);
    LoadFragment(aFrag, 0, a, blockRow, i, n);
    LoadFragment(bFrag, 0, b, i, blockCol, k);
    assert aFrag[..] == FragmentOf(sa, blockRow, i, n);
    assert bFrag[..] == FragmentOf(sb, i, blockCol, k);
    TransposeBinaryFragment(bFrag, bTransposed);
    ghost var accBefore := AccRows(acc);
    FastBinaryBlockMatrixMul(aFrag, bTransposed, acc, cFrag, signCmp, store);
    forall row, col | 0 <= row < FRAG && 0 <= col < FRAG
      ensures acc[row, col] == AgreeCount(sa, sb, m, n, k, blockRow * FRAG + row, blockCol * FRAG + col, i * FRAG + FRAG)
    {
      AccumulateCell(sa, sb, m, n, k, blockRow, blockCol, i, aFrag[..], bTransposed[..], row, col,
                     accBefore[row][col], acc[row, col]);
    }
    assert a[..] == sa && b[..] == sb;
  }

  /**
   * The innermost loop of fastBinaryMatrixMul for block (blockRow, blockCol):
   * store is set on the last step i == n / 32 - 1, so afterwards cFrag holds
   * the thresholded dot products of the block.  With n < 32 the loop would
   * not run and cFrag would keep whatever it held, hence n >= 32.
   */
  method FastAccumulateBlock(a: array<bv32>, b: array<bv32>, aFrag: array<bv32>, bFrag: array<bv32>, bTransposed: array<bv32>,
                             cFrag: array<bv32>, acc: array2<U32>, signCmp: U32, m: nat, n: nat, k: nat,
                             blockRow: nat, blockCol: nat)
    requires Operands(a.Length, b.Length, m, n, k) && n >= 32 && blockRow * FRAG + FRAG <= m && blockCol < k / 32
    requires FastScratch(a, b, aFrag, bFrag, bTransposed, cFrag, acc)
    modifies aFrag, bFrag, bTransposed, acc, cFrag
    ensures forall row, col :: 0 <= row < FRAG && 0 <= col < FRAG ==>
      FragBit(cFrag[..], row, col) == Above(a[..], b[..], m, n, k, blockRow * FRAG + row, blockCol * FRAG + col, signCmp)
  {
    FillAccWithZero(acc);
    var blockN := n / FRAG;
    DivMod(n, FRAG);
    for i := 0 to blockN
      invariant forall row, col :: 0 <= row < FRAG && 0 <= col < FRAG ==>
        acc[row, col] == AgreeCount(a[..], b[..], m, n, k, blockRow * FRAG + row, blockCol * FRAG + col, i * FRAG)
      invariant i == blockN ==> forall row, col :: 0 <= row < FRAG && 0 <= col < FRAG ==>
        FragBit(cFrag[..], row, col) == Above(a[..], b[..], m, n, k, blockRow * FRAG + row, blockCol * FRAG + col, signCmp)
    {
      FastAccumulateFragments(a, b, aFrag, bFrag, bTransposed, cFrag, acc, signCmp, m, n, k, blockRow, blockCol, i, i == blockN - 1);
    }
  }

  /** The body of fastBinaryMatrixMul's block loops: threshold block (blockRow, blockCol) and store it into c. */
  method FastMultiplyBlock(a: array<bv32>, b: array<bv32>, c: array<bv32>, aFrag: array<bv32>, bFrag: array<bv32>, bTransposed: array<bv32>,
                           cFrag: array<bv32>, acc: array2<U32>, signCmp: U32, m: nat, n: nat, k: nat,
                           blockRow: nat, blockCol: nat, ghost old0: seq<bv32>)
    requires Operands(a.Length, b.Length, m, n, k) && n >= 32 && FitsMatrix(c.Length, m, k)
    requires blockRow * FRAG + FRAG <= m && blockCol < k / 32
    requires c != a && c != b && c != aFrag && c != bFrag && c != bTransposed && c != cFrag
    requires FastScratch(a, b, aFrag, bFrag, bTransposed, cFrag, acc)
    requires SignProgress(c[..], old0, a[..], b[..], m, n, k, signCmp, blockRow, blockCol)
    modifies c, aFrag, bFrag, bTransposed, acc, cFrag
    ensures SignProgress(c[..], old0, a[..], b[..], m, n, k, signCmp, blockRow, blockCol + 1)
  {
    ghost var sa, sb := a[..], b[..];
    FastAccumulateBlock(a, b, aFrag, bFrag, bTransposed, cFrag, acc, signCmp, m, n, k, blockRow, blockCol);
    MatrixFragmentFits(c.Length, m, k, blockRow, blockCol);
    ghost var before := c[..];
    StoreFragment(cFrag, 0, c, blockRow, blockCol, k);
    assert cFrag[0..FRAG] == cFrag[..];
    SignStoreStep(before, c[..], old0, cFrag[..], sa, sb, m, n, k, signCmp, blockRow, blockCol);
    assert a[..] == sa && b[..] == sb;
  }

  /** One pass of fastBinaryMatrixMul's blockRow loop: every bit of block row blockRow is finished. */
  method FastMultiplyBlockRow(a: array<bv32>, b: array<bv32>, c: array<bv32>, aFrag: array<bv32>, bFrag: array<bv32>, bTransposed: array<bv32>,
                              cFrag: array<bv32>, acc: array2<U32>, signCmp: U32, m: nat, n: nat, k: nat,
                              blockRow: nat, ghost old0: seq<bv32>)
    requires Operands(a.Length, b.Length, m, n, k) && n >= 32 && FitsMatrix(c.Length, m, k)
    requires blockRow * FRAG + FRAG <= m
    requires c != a && c != b && c != aFrag && c != bFrag && c != bTransposed && c != cFrag
    requires FastScratch(a, b, aFrag, bFrag, bTransposed, cFrag, acc)
    requires SignProgress(c[..], old0, a[..], b[..], m, n, k, signCmp, blockRow, 0)
    modifies c, aFrag, bFrag, bTransposed, acc, cFrag
    ensures SignProgress(c[..], old0, a[..], b[..], m, n, k, signCmp, blockRow + 1, 0)
  {
    var blockK := k / FRAG;
    for blockCol := 0 to blockK
      invariant SignProgress(c[..], old0, a[..], b[..], m, n, k, signCmp, blockRow, blockCol)
    {
      FastMultiplyBlock(a, b, c, aFrag, bFrag, bTransposed, cFrag, acc, signCmp, m, n, k, blockRow, blockCol, old0);
    }
    DivMod(k, FRAG);
    forall r, col | 0 <= r < m && 0 <= col < k
      ensures CellDone(r, col, blockRow, blockK) == CellDone(r, col, blockRow + 1, 0)
    {
    }
  }

  /**
   * fastBinaryMatrixMul: for m, n and k multiples of 32 with n >= 32, bit
   * (r, c) of the m x k result is set exactly when the popcount product
   * entry (r, c) exceeds signCmp; words past bit m * k are untouched.
   */
  method FastBinaryMatrixMul(a: array<bv32>, b: array<bv32>, c: array<bv32>, signCmp: U32, m: nat, n: nat, k: nat)
    requires Operands(a.Length, b.Length, m, n, k) && n >= 32 && FitsMatrix(c.Length, m, k)
    requires c != a && c != b
    modifies c
    ensures IsSignProduct(c[..], a[..], b[..], m, n, k, signCmp)
    ensures forall w :: 0 <= w < c.Length && m * k <= w * 32 ==> c[w] == old(c[w])
  {
    var blockM := m / FRAG;
    var aFrag := new bv32[FRAG];
    var bFrag := new bv32[FRAG];
    var bTransposed := new bv32[FRAG];
    var cFrag := new bv32[FRAG];
    var acc := new U32[FRAG, FRAG];
    ghost var old0 := c[..];
    forall r, col | 0 <= r < m && 0 <= col < k
      ensures ValidBit(c.Length, r, col, k)
    {
      FitsMatrixBit(c.Length, m, k, r, col);
    }
    for blockRow := 0 to blockM
      invariant SignProgress(c[..], old0, a[..], b[..], m, n, k, signCmp, blockRow, 0)
    {
      FastMultiplyBlockRow(a, b, c, aFrag, bFrag, bTransposed, cFrag, acc, signCmp, m, n, k, blockRow, old0);
    }
    DivMod(m, FRAG);
  }

  // ---------------------------------------------------------------------
  // binarizeMatrix

  /** bits is the m x n bit matrix whose bit (i, j) tells whether entry i * n + j of mat exceeds signCmp. */
  predicate IsBinarized(bits: seq<bv32>, mat: seq<U32>, signCmp: U32, m: nat, n: nat)
  {
    forall i, j :: 0 <= i < m && 0 <= j < n ==>
      Cell(i, j, n) < |mat| && ValidBit(|bits|, i, j, n) && GetBit(bits, i, j, n) == (mat[Cell(i, j, n)] > signCmp)
  }

  /** The state of bMat part-way through binarizeMatrix: the cells before (i, j) are written, the words past bit m * n are untouched. */
  predicate BinarizedUpTo(bits: seq<bv32>, old0: seq<bv32>, mat: seq<U32>, signCmp: U32, m: nat, n: nat, i: nat, j: nat)
  {
    |bits| == |old0| &&
    (forall ii, jj :: 0 <= ii < m && 0 <= jj < n && (ii < i || (ii == i && jj < j)) ==>
      Cell(ii, jj, n) < |mat| && ValidBit(|bits|, ii, jj, n) && GetBit(bits, ii, jj, n) == (mat[Cell(ii, jj, n)] > signCmp)) &&
    (forall w :: 0 <= w < |bits| && m * n <= w * 32 ==> bits[w] == old0[w]) &&
    PastBitsKept(bits, old0, m * n)
  }

  /** Every bit at linear index p >= count, in particular those of a partly used last word, is as in old0. */
  predicate PastBitsKept(bits: seq<bv32>, old0: seq<bv32>, count: nat)
    requires |bits| == |old0|
  {
    forall w, u :: 0 <= w < |bits| && 0 <= u < 32 && count <= w * 32 + u ==> WordBit(bits[w], u) == WordBit(old0[w], u)
  }

  /** setBit of cell (i, j) keeps the words lying wholly past bit m * n, and every bit past m * n. */
  lemma SetBitBelow(before: seq<bv32>, m: nat, n: nat, i: nat, j: nat, v: bool)
    requires FitsMatrix(|before|, m, n) && i < m && j < n
    ensures ValidBit(|before|, i, j, n)
    ensures forall w :: 0 <= w < |before| && m * n <= w * 32 ==> SetBitSpec(before, i, j, v, n)[w] == before[w]
    ensures PastBitsKept(SetBitSpec(before, i, j, v, n), before, m * n)
  {
    FitsMatrixBit(|before|, m, n, i, j);
    MulMonotone(i + 1, m, n);
    var p := i * n + j;
    assert p < m * n;
    forall w, u | 0 <= w < |before| && 0 <= u < 32 && m * n <= w * 32 + u
      ensures WordBit(SetBitSpec(before, i, j, v, n)[w], u) == WordBit(before[w], u)
    {
      SetBitWritesOneBit(before, i, j, v, n, w, u);
    }
  }

  /** setBit of cell (i, j) with its thresholded entry extends the written cells by that one. */
  lemma BinarizeStep(before: seq<bv32>, old0: seq<bv32>, mat: seq<U32>, signCmp: U32, m: nat, n: nat, i: nat, j: nat)
    requires m * n <= |mat| && FitsMatrix(|before|, m, n) && i < m && j < n
    requires BinarizedUpTo(before, old0, mat, signCmp, m, n, i, j)
    ensures Cell(i, j, n) < |mat| && ValidBit(|before|, i, j, n)
    ensures BinarizedUpTo(SetBitSpec(before, i, j, mat[Cell(i, j, n)] > signCmp, n), old0, mat, signCmp, m, n, i, j + 1)
  {
    FitsMatrixBit(|before|, m, n, i, j);
    MulMonotone(i + 1, m, n);
    var bit := mat[Cell(i, j, n)] > signCmp;
    var after := SetBitSpec(before, i, j, bit, n);
    forall ii, jj | 0 <= ii < m && 0 <= jj < n && (ii < i || (ii == i && jj < j + 1))
      ensures Cell(ii, jj, n) < |mat| && ValidBit(|after|, ii, jj, n) && GetBit(after, ii, jj, n) == (mat[Cell(ii, jj, n)] > signCmp)
    {
      FitsMatrixBit(|before|, m, n, ii, jj);
      MulMonotone(ii + 1, m, n);
      GetAfterSetBit(before, i, j, bit, n, ii, jj);
    }
    SetBitBelow(before, m, n, i, j, bit);
  }

  /** Finishing row i of the cells is starting row i + 1. */
  lemma BinarizedRow(bits: seq<bv32>, old0: seq<bv32>, mat: seq<U32>, signCmp: U32, m: nat, n: nat, i: nat)
    requires BinarizedUpTo(bits, old0, mat, signCmp, m, n, i, n)
    ensures BinarizedUpTo(bits, old0, mat, signCmp, m, n, i + 1, 0)
  {
  }

  /**
   * binarizeMatrix: every bit (i, j) of the m x n bit matrix bMat becomes
   * whether mat[i * n + j] exceeds signCmp (unsigned); every bit past bit
   * m * n, including the rest of a partly used last word, is untouched.
   */
  method BinarizeMatrix(mat: array<U32>, bMat: array<bv32>, signCmp: U32, m: nat, n: nat)
    requires m * n <= mat.Length && FitsMatrix(bMat.Length, m, n)
    requires mat as object != bMat
    modifies bMat
    ensures IsBinarized(bMat[..], mat[..], signCmp, m, n)
    ensures forall w :: 0 <= w < bMat.Length && m * n <= w * 32 ==> bMat[w] == old(bMat[w])
    ensures PastBitsKept(bMat[..], old(bMat[..]), m * n)
  {
    ghost var old0, values := bMat[..], mat[..];
    for i := 0 to m
      invariant BinarizedUpTo(bMat[..], old0, values, signCmp, m, n, i, 0)
    {
      for j := 0 to n
        invariant BinarizedUpTo(bMat[..], old0, values, signCmp, m, n, i, j)
      {
        ghost var before := bMat[..];
        BinarizeStep(before, old0, values, signCmp, m, n, i, j);
        var bit := mat[i * n + j] > signCmp;
        assert bit == (values[Cell(i, j, n)] > signCmp);
        SetBit(bMat, i, j, bit, n);
      }
      BinarizedRow(bMat[..], old0, values, signCmp, m, n, i);
    }
    assert mat[..] == values;
  }

  /**
   * fastBinaryMatrixMul computes binarizeMatrix of binaryMatrixMul's result:
   * with the same operands and threshold, the two bit matrices agree on
   * every bit of the m x k result.
   */
  lemma FastMatchesBinarize(c: seq<bv32>, bits: seq<bv32>, result: seq<U32>, a: seq<bv32>, b: seq<bv32>,
                            m: nat, n: nat, k: nat, signCmp: U32)
    requires Operands(|a|, |b|, m, n, k)
    requires IsProduct(result, a, b, m, n, k)
    requires IsBinarized(bits, result, signCmp, m, k)
    requires IsSignProduct(c, a, b, m, n, k, signCmp)
    ensures forall r, col :: 0 <= r < m && 0 <= col < k ==>
      ValidBit(|c|, r, col, k) && ValidBit(|bits|, r, col, k) && GetBit(c, r, col, k) == GetBit(bits, r, col, k)
  {
    forall r, col | 0 <= r < m && 0 <= col < k
      ensures ValidBit(|c|, r, col, k) && ValidBit(|bits|, r, col, k) && GetBit(c, r, col, k) == GetBit(bits, r, col, k)
    {
      assert result[Cell(r, col, k)] == AgreeCount(a, b, m, n, k, r, col, n);
    }
  }
}
