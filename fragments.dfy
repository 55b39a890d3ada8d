/**
 * Moving 32 x 32 fragments between a bit-packed matrix and fragment
 * buffers.  A matrix with n columns has n / 32 words per row; the fragment
 * at block (blockRow, blockCol) is the blockCol-th word of the 32 rows
 * blockRow * 32 .. blockRow * 32 + 31.
 *
 * A fragment parameter of the C code is a pointer to 32 consecutive words;
 * it is modelled as an array together with the offset of the first word,
 * so that a fragment inside an array of fragments (`dest[fragmentN]`) is
 * the array `dest` at offset `fragmentN * 32`.
 */
module Fragments {
  import opened Words
  import opened BitMatrix

  /** The word of the matrix that row i of fragment (blockRow, blockCol) occupies. */
  function WordIndex(blockRow: nat, blockCol: nat, n: nat, i: nat): nat
  {
    (blockRow * FRAG + i) * (n / 32) + blockCol
  }

  /** All 32 words of the fragment lie inside the matrix, at indices an `int` can hold. */
  predicate FragmentFits(len: nat, blockRow: nat, blockCol: nat, n: nat)
  {
    forall i :: 0 <= i < FRAG ==> WordIndex(blockRow, blockCol, n, i) < len && WordIndex(blockRow, blockCol, n, i) < INT_LIMIT
  }

  /** On a matrix at least 32 columns wide, distinct fragment rows are distinct words. */
  lemma WordIndexInjective(blockRow: nat, blockCol: nat, n: nat, i: nat, j: nat)
    requires n >= 32 && i != j
    ensures WordIndex(blockRow, blockCol, n, i) != WordIndex(blockRow, blockCol, n, j)
  {
    var cols := n / 32;
    if i < j {
      MulMonotone(blockRow * FRAG + i + 1, blockRow * FRAG + j, cols);
    } else {
      MulMonotone(blockRow * FRAG + j + 1, blockRow * FRAG + i, cols);
    }
  }

  /** The first count rows of fragment (blockRow, blockCol) of mat, as loadFragment reads them. */
  function LoadWords(mat: seq<bv32>, blockRow: nat, blockCol: nat, n: nat, count: nat): (f: seq<bv32>)
    requires count <= FRAG && FragmentFits(|mat|, blockRow, blockCol, n)
    ensures |f| == count
    ensures forall i :: 0 <= i < count ==> f[i] == mat[WordIndex(blockRow, blockCol, n, i)]
  {
    if count == 0 then []
    else
      LoadWords(mat, blockRow, blockCol, n, count - 1) + [mat[WordIndex(blockRow, blockCol, n, count - 1)]]
  }

  /** Fragment (blockRow, blockCol) of mat. */
  function FragmentOf(mat: seq<bv32>, blockRow: nat, blockCol: nat, n: nat): seq<bv32>
    requires FragmentFits(|mat|, blockRow, blockCol, n)
  {
    LoadWords(mat, blockRow, blockCol, n, FRAG)
  }

  /**
   * loadFragment: row i of the fragment is word (blockRow * 32 + i) * (n / 32) + blockCol
   * of the matrix; the rest of the destination buffer is untouched.
   */
  method LoadFragment(frag: array<bv32>, at: nat, mat: array<bv32>, blockRow: nat, blockCol: nat, n: nat)
    requires frag != mat && at + FRAG <= frag.Length
    requires FragmentFits(mat.Length, blockRow, blockCol, n)
    modifies frag
    ensures frag[..] == old(frag[..at]) + FragmentOf(mat[..], blockRow, blockCol, n) + old(frag[at + FRAG..])
  {
    var cols := n / 32;
    var blockRowOffset := blockRow * cols * FRAG;
    var wordRow := blockRowOffset + blockCol;
    assert wordRow == WordIndex(blockRow, blockCol, n, 0);
    for i := 0 to FRAG
      invariant wordRow == WordIndex(blockRow, blockCol, n, i)
      invariant forall j :: 0 <= j < frag.Length ==>
        frag[j] == if at <= j < at + i then mat[WordIndex(blockRow, blockCol, n, j - at)] else old(frag[j])
    {
      MulSucc(blockRow * FRAG + i, cols);
      frag[at + i] := mat[wordRow];
      wordRow := wordRow + cols;
    }
    LoadFragmentContents(old(frag[..]), frag[..], at, mat[..], blockRow, blockCol, n);
  }

  /** The buffer frag after LoadFragment: the fragment at offset at, the rest as before. */
  lemma LoadFragmentContents(before: seq<bv32>, after: seq<bv32>, at: nat, mat: seq<bv32>, blockRow: nat, blockCol: nat, n: nat)
    requires at + FRAG <= |before| == |after| && FragmentFits(|mat|, blockRow, blockCol, n)
    requires forall j :: 0 <= j < |after| ==>
      after[j] == if at <= j < at + FRAG then mat[WordIndex(blockRow, blockCol, n, j - at)] else before[j]
    ensures after == before[..at] + FragmentOf(mat, blockRow, blockCol, n) + before[at + FRAG..]
  {
  }

  /** The matrix after storeFragment has written the first count rows of src. */
  function StoreWords(mat: seq<bv32>, src: seq<bv32>, blockRow: nat, blockCol: nat, n: nat, count: nat): (r: seq<bv32>)
    requires count <= FRAG == |src| && FragmentFits(|mat|, blockRow, blockCol, n)
    ensures |r| == |mat|
  {
    if count == 0 then mat
    else
      StoreWords(mat, src, blockRow, blockCol, n, count - 1)[WordIndex(blockRow, blockCol, n, count - 1) := src[count - 1]]
  }

  /** The matrix after storeFragment(src, mat, blockRow, blockCol, n). */
  function StoreSpec(mat: seq<bv32>, src: seq<bv32>, blockRow: nat, blockCol: nat, n: nat): seq<bv32>
    requires FRAG == |src| && FragmentFits(|mat|, blockRow, blockCol, n)
  {
    StoreWords(mat, src, blockRow, blockCol, n, FRAG)
  }

  /** storeFragment: write the 32 rows of the fragment at frag[at..] into the matrix. */
  method StoreFragment(frag: array<bv32>, at: nat, mat: array<bv32>, blockRow: nat, blockCol: nat, n: nat)
    requires frag != mat && at + FRAG <= frag.Length
    requires FragmentFits(mat.Length, blockRow, blockCol, n)
    modifies mat
    ensures mat[..] == StoreSpec(old(mat[..]), frag[at..at + FRAG], blockRow, blockCol, n)
  {
    var cols := n / 32;
    var blockRowOffset := blockRow * cols * FRAG;
    var wordRow := blockRowOffset + blockCol;
    assert wordRow == WordIndex(blockRow, blockCol, n, 0);
    for i := 0 to FRAG
      invariant wordRow == WordIndex(blockRow, blockCol, n, i)
      invariant mat[..] == StoreWords(old(mat[..]), frag[at..at + FRAG], blockRow, blockCol, n, i)
    {
      MulSucc(blockRow * FRAG + i, cols);
      mat[wordRow] := frag[at + i];
      wordRow := wordRow + cols;
    }
  }

  /** Row i of the fragment is in matrix word WordIndex(i) once it has been written (n >= 32). */
  lemma {:induction false} StoreWordsWritten(mat: seq<bv32>, src: seq<bv32>, blockRow: nat, blockCol: nat, n: nat, count: nat, i: nat)
    requires count <= FRAG == |src| && FragmentFits(|mat|, blockRow, blockCol, n)
    requires n >= 32 && i < count
    ensures WordIndex(blockRow, blockCol, n, i) < |mat|
    ensures StoreWords(mat, src, blockRow, blockCol, n, count)[WordIndex(blockRow, blockCol, n, i)] == src[i]
  {
    if i != count - 1 {
      WordIndexInjective(blockRow, blockCol, n, i, count - 1);
      StoreWordsWritten(mat, src, blockRow, blockCol, n, count - 1, i);
    }
  }

  /** A matrix word that is none of the fragment's words keeps its value. */
  lemma {:induction false} StoreWordsKept(mat: seq<bv32>, src: seq<bv32>, blockRow: nat, blockCol: nat, n: nat, count: nat, j: nat)
    requires count <= FRAG == |src| && FragmentFits(|mat|, blockRow, blockCol, n)
    requires j < |mat| && forall i :: 0 <= i < count ==> j != WordIndex(blockRow, blockCol, n, i)
    ensures StoreWords(mat, src, blockRow, blockCol, n, count)[j] == mat[j]
  {
    if count > 0 {
      StoreWordsKept(mat, src, blockRow, blockCol, n, count - 1, j);
    }
  }

  /**
   * storeFragment writes exactly the fragment's 32 words: word WordIndex(i)
   * holds row i of the fragment, and every other word is unchanged.
   */
  lemma StoreFragmentWrites(mat: seq<bv32>, src: seq<bv32>, blockRow: nat, blockCol: nat, n: nat)
    requires FRAG == |src| && FragmentFits(|mat|, blockRow, blockCol, n) && n >= 32
    ensures forall i :: 0 <= i < FRAG ==>
      WordIndex(blockRow, blockCol, n, i) < |mat| &&
      StoreSpec(mat, src, blockRow, blockCol, n)[WordIndex(blockRow, blockCol, n, i)] == src[i]
    ensures forall j :: 0 <= j < |mat| && (forall i :: 0 <= i < FRAG ==> j != WordIndex(blockRow, blockCol, n, i)) ==>
      StoreSpec(mat, src, blockRow, blockCol, n)[j] == mat[j]
  {
    forall i | 0 <= i < FRAG
      ensures WordIndex(blockRow, blockCol, n, i) < |mat| &&
        StoreSpec(mat, src, blockRow, blockCol, n)[WordIndex(blockRow, blockCol, n, i)] == src[i]
    {
      StoreWordsWritten(mat, src, blockRow, blockCol, n, FRAG, i);
    }
    forall j | 0 <= j < |mat| && (forall i :: 0 <= i < FRAG ==> j != WordIndex(blockRow, blockCol, n, i))
      ensures StoreSpec(mat, src, blockRow, blockCol, n)[j] == mat[j]
    {
      StoreWordsKept(mat, src, blockRow, blockCol, n, FRAG, j);
    }
  }

  /** Loading a fragment just stored gives back the stored fragment (n >= 32). */
  lemma LoadAfterStore(mat: seq<bv32>, src: seq<bv32>, blockRow: nat, blockCol: nat, n: nat)
    requires FRAG == |src| && FragmentFits(|mat|, blockRow, blockCol, n) && n >= 32
    ensures FragmentOf(StoreSpec(mat, src, blockRow, blockCol, n), blockRow, blockCol, n) == src
  {
    StoreFragmentWrites(mat, src, blockRow, blockCol, n);
  }

  lemma {:induction false} StoreWordsLoaded(mat: seq<bv32>, blockRow: nat, blockCol: nat, n: nat, count: nat)
    requires count <= FRAG && FragmentFits(|mat|, blockRow, blockCol, n)
    ensures StoreWords(mat, FragmentOf(mat, blockRow, blockCol, n), blockRow, blockCol, n, count) == mat
  {
    if count > 0 {
      StoreWordsLoaded(mat, blockRow, blockCol, n, count - 1);
    }
  }

  /** Storing back a fragment just loaded leaves the matrix as it was. */
  lemma StoreAfterLoad(mat: seq<bv32>, blockRow: nat, blockCol: nat, n: nat)
    requires FragmentFits(|mat|, blockRow, blockCol, n)
    ensures StoreSpec(mat, FragmentOf(mat, blockRow, blockCol, n), blockRow, blockCol, n) == mat
  {
    StoreWordsLoaded(mat, blockRow, blockCol, n, FRAG);
  }

  // ---------------------------------------------------------------------
  // loadBinaryMatrixToFragments and storeFramentsToBinaryMatrix.  The
  // fragment array is a list of fragments laid end to end; fragment number
  // br * (n / 32) + bc of the list is block (br, bc) of the matrix.

  /** The sequences of xs laid end to end. */
  function Concat<T>(xs: seq<seq<T>>): seq<T>
  {
    if |xs| == 0 then [] else Concat(xs[..|xs| - 1]) + xs[|xs| - 1]
  }

  /** Every sequence of xs has length w. */
  predicate Uniform<T>(xs: seq<seq<T>>, w: nat)
  {
    forall j :: 0 <= j < |xs| ==> |xs[j]| == w
  }

  lemma ConcatSnoc<T>(xs: seq<seq<T>>, x: seq<T>)
    ensures Concat(xs + [x]) == Concat(xs) + x
  {
    assert (xs + [x])[..|xs|] == xs;
  }

  lemma {:induction false} ConcatLength<T>(xs: seq<seq<T>>, w: nat)
    requires Uniform(xs, w)
    ensures |Concat(xs)| == |xs| * w
  {
    if |xs| > 0 {
      ConcatLength(xs[..|xs| - 1], w);
      MulSucc(|xs| - 1, w);
    }
  }

  /** Element i of xs[j] is element j * w + i of the concatenation. */
  lemma {:induction false} ConcatAt<T>(xs: seq<seq<T>>, w: nat, j: nat, i: nat)
    requires Uniform(xs, w) && j < |xs| && i < w
    ensures j * w + i < |Concat(xs)| && Concat(xs)[j * w + i] == xs[j][i]
  {
    var last := |xs| - 1;
    ConcatLength(xs[..last], w);
    MulSucc(last, w);
    if j < last {
      SlotBefore(j, i, last, w);
      ConcatAt(xs[..last], w, j, i);
    }
  }

  /** xs[j] is the w elements of the concatenation from j * w on. */
  lemma ConcatSlice<T>(xs: seq<seq<T>>, w: nat, j: nat)
    requires Uniform(xs, w) && j < |xs|
    ensures j * w + w <= |Concat(xs)| && Concat(xs)[j * w..j * w + w] == xs[j]
  {
    ConcatLength(xs, w);
    RowSlots(j, |xs|, w);
    forall i | 0 <= i < w
      ensures Concat(xs)[j * w..j * w + w][i] == xs[j][i]
    {
      ConcatAt(xs, w, j, i);
    }
  }

  /** Slot c of row r of a grid with cols slots per row comes before slot rows * cols. */
  lemma SlotBefore(r: nat, c: nat, rows: nat, cols: nat)
    requires r < rows && c < cols
    ensures 0 <= r * cols && r * cols + c < rows * cols
  {
    MulSucc(r, cols);
    MulMonotone(r + 1, rows, cols);
  }

  /** Row r of a grid with cols slots per row ends no later than row rows - 1. */
  lemma RowSlots(r: nat, rows: nat, cols: nat)
    requires r < rows
    ensures 0 <= r * cols && r * cols + cols == (r + 1) * cols <= rows * cols
  {
    MulSucc(r, cols);
    MulMonotone(r + 1, rows, cols);
  }

  /** Every block row below blockRows lies inside the matrix, at indices an `int` can hold. */
  predicate BlocksFit(len: nat, blockRows: nat, n: nat)
  {
    blockRows * FRAG * (n / 32) <= len && blockRows * FRAG * (n / 32) <= INT_LIMIT
  }

  lemma BlockFits(len: nat, blockRows: nat, n: nat, blockRow: nat, blockCol: nat)
    requires BlocksFit(len, blockRows, n) && blockRow < blockRows && blockCol < n / 32
    ensures FragmentFits(len, blockRow, blockCol, n)
  {
    forall i | 0 <= i < FRAG
      ensures WordIndex(blockRow, blockCol, n, i) < blockRows * FRAG * (n / 32)
    {
      MulMonotone(blockRow * FRAG + i + 1, blockRows * FRAG, n / 32);
    }
  }

  /** Fragments (blockRow, 0) .. (blockRow, count - 1) of the matrix. */
  function RowBlocks(mat: seq<bv32>, blockRows: nat, n: nat, blockRow: nat, count: nat): (r: seq<seq<bv32>>)
    requires BlocksFit(|mat|, blockRows, n) && blockRow < blockRows && count <= n / 32
    ensures |r| == count
  {
    if count == 0 then []
    else
      BlockFits(|mat|, blockRows, n, blockRow, count - 1);
      RowBlocks(mat, blockRows, n, blockRow, count - 1) + [FragmentOf(mat, blockRow, count - 1, n)]
  }

  /** The fragments of block rows 0 .. rows - 1, in the order loadBinaryMatrixToFragments stores them. */
  function FragmentList(mat: seq<bv32>, blockRows: nat, n: nat, rows: nat): (r: seq<seq<bv32>>)
    requires BlocksFit(|mat|, blockRows, n) && rows <= blockRows
  {
    if rows == 0 then []
    else FragmentList(mat, blockRows, n, rows - 1) + RowBlocks(mat, blockRows, n, rows - 1, n / 32)
  }

  lemma UniformAppend<T>(xs: seq<seq<T>>, ys: seq<seq<T>>, w: nat)
    requires Uniform(xs, w) && Uniform(ys, w)
    ensures Uniform(xs + ys, w)
  {
    forall j | 0 <= j < |xs + ys|
      ensures |(xs + ys)[j]| == w
    {
      if j >= |xs| {
        assert (xs + ys)[j] == ys[j - |xs|];
      }
    }
  }

  /** Every fragment of a block row is 32 words long. */
  lemma {:induction false} RowBlocksUniform(mat: seq<bv32>, blockRows: nat, n: nat, blockRow: nat, count: nat)
    requires BlocksFit(|mat|, blockRows, n) && blockRow < blockRows && count <= n / 32
    ensures Uniform(RowBlocks(mat, blockRows, n, blockRow, count), FRAG)
  {
    if count > 0 {
      RowBlocksUniform(mat, blockRows, n, blockRow, count - 1);
      BlockFits(|mat|, blockRows, n, blockRow, count - 1);
      UniformAppend(RowBlocks(mat, blockRows, n, blockRow, count - 1), [FragmentOf(mat, blockRow, count - 1, n)], FRAG);
    }
  }

  /** Every fragment of the list is 32 words long. */
  lemma {:induction false} FragmentListUniform(mat: seq<bv32>, blockRows: nat, n: nat, rows: nat)
    requires BlocksFit(|mat|, blockRows, n) && rows <= blockRows
    ensures Uniform(FragmentList(mat, blockRows, n, rows), FRAG)
  {
    if rows > 0 {
      FragmentListUniform(mat, blockRows, n, rows - 1);
      RowBlocksUniform(mat, blockRows, n, rows - 1, n / 32);
      UniformAppend(FragmentList(mat, blockRows, n, rows - 1), RowBlocks(mat, blockRows, n, rows - 1, n / 32), FRAG);
    }
  }

  /** Fragment blockCol of a block row is block (blockRow, blockCol). */
  lemma {:induction false} RowBlocksAt(mat: seq<bv32>, blockRows: nat, n: nat, blockRow: nat, count: nat, blockCol: nat)
    requires BlocksFit(|mat|, blockRows, n) && blockRow < blockRows && count <= n / 32 && blockCol < count
    ensures FragmentFits(|mat|, blockRow, blockCol, n)
    ensures RowBlocks(mat, blockRows, n, blockRow, count)[blockCol] == FragmentOf(mat, blockRow, blockCol, n)
  {
    BlockFits(|mat|, blockRows, n, blockRow, blockCol);
    if blockCol < count - 1 {
      RowBlocksAt(mat, blockRows, n, blockRow, count - 1, blockCol);
    }
  }

  /** There are n / 32 fragments per block row. */
  lemma {:induction false} FragmentListLength(mat: seq<bv32>, blockRows: nat, n: nat, rows: nat)
    requires BlocksFit(|mat|, blockRows, n) && rows <= blockRows
    ensures |FragmentList(mat, blockRows, n, rows)| == rows * (n / 32)
  {
    if rows > 0 {
      FragmentListLength(mat, blockRows, n, rows - 1);
      MulSucc(rows - 1, n / 32);
    }
  }

  /** The fragments of the first rows block rows come first among those of the first rows2. */
  lemma {:induction false} FragmentListPrefix(mat: seq<bv32>, blockRows: nat, n: nat, rows: nat, rows2: nat)
    requires BlocksFit(|mat|, blockRows, n) && rows <= rows2 <= blockRows
    ensures |FragmentList(mat, blockRows, n, rows)| <= |FragmentList(mat, blockRows, n, rows2)|
    ensures FragmentList(mat, blockRows, n, rows2)[..|FragmentList(mat, blockRows, n, rows)|] == FragmentList(mat, blockRows, n, rows)
  {
    if rows < rows2 {
      FragmentListPrefix(mat, blockRows, n, rows, rows2 - 1);
      var prev := FragmentList(mat, blockRows, n, rows2 - 1);
      var last := RowBlocks(mat, blockRows, n, rows2 - 1, n / 32);
      assert FragmentList(mat, blockRows, n, rows2) == prev + last;
      assert (prev + last)[..|FragmentList(mat, blockRows, n, rows)|] == prev[..|FragmentList(mat, blockRows, n, rows)|];
    }
  }

  /** Fragment number blockRow * (n / 32) + blockCol of the list is block (blockRow, blockCol). */
  lemma FragmentListAt(mat: seq<bv32>, blockRows: nat, n: nat, rows: nat, blockRow: nat, blockCol: nat, f: nat)
    requires BlocksFit(|mat|, blockRows, n) && rows <= blockRows
    requires blockRow < rows && blockCol < n / 32 && f == blockRow * (n / 32) + blockCol
    ensures f < |FragmentList(mat, blockRows, n, rows)| && FragmentFits(|mat|, blockRow, blockCol, n)
    ensures FragmentList(mat, blockRows, n, rows)[f] == FragmentOf(mat, blockRow, blockCol, n)
  {
    var cols := n / 32;
    var prev := FragmentList(mat, blockRows, n, blockRow);
    var here := FragmentList(mat, blockRows, n, blockRow + 1);
    FragmentListLength(mat, blockRows, n, blockRow);
    RowBlocksAt(mat, blockRows, n, blockRow, cols, blockCol);
    assert here == prev + RowBlocks(mat, blockRows, n, blockRow, cols);
    assert here[f] == FragmentOf(mat, blockRow, blockCol, n);
    FragmentListPrefix(mat, blockRows, n, blockRow + 1, rows);
    assert FragmentList(mat, blockRows, n, rows)[f] == here[..|here|][f];
  }

  /**
   * The layout loadBinaryMatrixToFragments produces: word f * 32 + i of the
   * fragment array, f = blockRow * (n / 32) + blockCol, is row i of block
   * (blockRow, blockCol), matrix word (blockRow * 32 + i) * (n / 32) + blockCol.
   */
  lemma FragmentLayout(mat: seq<bv32>, blockRows: nat, n: nat, blockRow: nat, blockCol: nat, f: nat, i: nat)
    requires BlocksFit(|mat|, blockRows, n) && blockRow < blockRows && blockCol < n / 32 && i < FRAG
    requires f == blockRow * (n / 32) + blockCol
    ensures f * FRAG + i < |Concat(FragmentList(mat, blockRows, n, blockRows))|
    ensures WordIndex(blockRow, blockCol, n, i) < |mat|
    ensures Concat(FragmentList(mat, blockRows, n, blockRows))[f * FRAG + i] == mat[WordIndex(blockRow, blockCol, n, i)]
  {
    FragmentListAt(mat, blockRows, n, blockRows, blockRow, blockCol, f);
    FragmentListUniform(mat, blockRows, n, blockRows);
    ConcatAt(FragmentList(mat, blockRows, n, blockRows), FRAG, f, i);
  }

  /** The fragment array holds (m / 32) * (n / 32) fragments of 32 words. */
  lemma LoadedLength(mat: seq<bv32>, blockRows: nat, n: nat)
    requires BlocksFit(|mat|, blockRows, n)
    ensures |Concat(FragmentList(mat, blockRows, n, blockRows))| == blockRows * (n / 32) * FRAG
  {
    FragmentListLength(mat, blockRows, n, blockRows);
    FragmentListUniform(mat, blockRows, n, blockRows);
    ConcatLength(FragmentList(mat, blockRows, n, blockRows), FRAG);
  }

  /**
   * One loadFragment of the inner loop appends block (blockRow, blockCol) to
   * the fragments loaded so far and keeps the rest of dest.
   */
  lemma LoadStep(old0: seq<bv32>, before: seq<bv32>, after: seq<bv32>, mat: seq<bv32>, blockRows: nat, n: nat,
                 blockRow: nat, blockCol: nat, prefix: seq<seq<bv32>>, f: nat, next: nat)
    requires BlocksFit(|mat|, blockRows, n) && blockRow < blockRows && blockCol < n / 32
    requires Uniform(prefix, FRAG) && f == |prefix| + blockCol && f * FRAG + FRAG <= |old0|
    requires before == Concat(prefix + RowBlocks(mat, blockRows, n, blockRow, blockCol)) + old0[f * FRAG..]
    requires FragmentFits(|mat|, blockRow, blockCol, n) && |before| == |old0|
    requires after == before[..f * FRAG] + FragmentOf(mat, blockRow, blockCol, n) + before[f * FRAG + FRAG..]
    requires next == f + 1
    ensures after == Concat(prefix + RowBlocks(mat, blockRows, n, blockRow, blockCol + 1)) + old0[next * FRAG..]
  {
    var row := RowBlocks(mat, blockRows, n, blockRow, blockCol);
    var done := prefix + row;
    var frag := FragmentOf(mat, blockRow, blockCol, n);
    RowBlocksUniform(mat, blockRows, n, blockRow, blockCol);
    UniformAppend(prefix, row, FRAG);
    ConcatLength(done, FRAG);
    assert prefix + RowBlocks(mat, blockRows, n, blockRow, blockCol + 1) == done + [frag];
    ConcatSnoc(done, frag);
    assert before[..f * FRAG] == Concat(done);
    assert before[f * FRAG + FRAG..] == old0[next * FRAG..];
  }

  /** Fragment slot f of a buffer of total slots is inside the buffer. */
  lemma SlotFits(f: nat, total: nat, len: nat)
    requires f < total && total * FRAG <= len
    ensures f * FRAG + FRAG <= len
  {
    MulMonotone(f + 1, total, FRAG);
  }

  /** The next block row starts blockCols fragments later, and no later than the last one. */
  lemma NextBlockRow(blockRow: nat, blockRows: nat, blockCols: nat)
    requires blockRow < blockRows
    ensures (blockRow + 1) * blockCols == blockRow * blockCols + blockCols <= blockRows * blockCols
  {
    MulMonotone(blockRow + 1, blockRows, blockCols);
    MulSucc(blockRow, blockCols);
  }

  /**
   * loadBinaryMatrixToFragments: dest holds the m / 32 x n / 32 blocks of the
   * matrix, fragment after fragment (see FragmentLayout); dest beyond the last
   * fragment is untouched.
   */
  method LoadBinaryMatrixToFragments(mat: array<bv32>, dest: array<bv32>, m: nat, n: nat)
    requires mat != dest
    requires BlocksFit(mat.Length, m / FRAG, n) && (m / FRAG) * (n / FRAG) * FRAG <= dest.Length
    modifies dest
    ensures dest[..] == Concat(FragmentList(mat[..], m / FRAG, n, m / FRAG)) + old(dest[..])[(m / FRAG) * (n / FRAG) * FRAG..]
  {
    var blockRows := m / FRAG;
    var blockCols := n / FRAG;
    ghost var sm, d0 := mat[..], dest[..];
    var fragmentN: nat := 0;
    for blockRow := 0 to blockRows
      invariant fragmentN == blockRow * blockCols <= blockRows * blockCols
      invariant dest[..] == Concat(FragmentList(sm, blockRows, n, blockRow)) + d0[fragmentN * FRAG..]
    {
      NextBlockRow(blockRow, blockRows, blockCols);
      fragmentN := LoadBlockRow(mat, dest, blockRows, n, blockRow, fragmentN, sm, d0);
    }
    assert mat[..] == sm;
  }

  /**
   * The inner loop of loadBinaryMatrixToFragments: the fragments of block
   * row blockRow, numbered from start = blockRow * (n / 32).
   */
  method LoadBlockRow(mat: array<bv32>, dest: array<bv32>, blockRows: nat, n: nat, blockRow: nat, start: nat,
                      ghost sm: seq<bv32>, ghost old0: seq<bv32>) returns (next: nat)
    requires mat != dest && mat[..] == sm && blockRow < blockRows && BlocksFit(|sm|, blockRows, n)
    requires start == blockRow * (n / FRAG) && start + n / FRAG <= blockRows * (n / FRAG)
    requires blockRows * (n / FRAG) * FRAG <= dest.Length == |old0|
    requires dest[..] == Concat(FragmentList(sm, blockRows, n, blockRow)) + old0[start * FRAG..]
    modifies dest
    ensures next == start + n / FRAG
    ensures dest[..] == Concat(FragmentList(sm, blockRows, n, blockRow + 1)) + old0[next * FRAG..]
  {
    var blockCols := n / FRAG;
    ghost var prefix := FragmentList(sm, blockRows, n, blockRow);
    FragmentListLength(sm, blockRows, n, blockRow);
    FragmentListUniform(sm, blockRows, n, blockRow);
    assert prefix + RowBlocks(sm, blockRows, n, blockRow, 0) == prefix;
    next := start;
    for blockCol := 0 to blockCols
      invariant next == start + blockCol && mat[..] == sm
      invariant dest[..] == Concat(prefix + RowBlocks(sm, blockRows, n, blockRow, blockCol)) + old0[next * FRAG..]
    {
      BlockFits(mat.Length, blockRows, n, blockRow, blockCol);
      SlotFits(next, blockRows * blockCols, dest.Length);
      ghost var before, f := dest[..], next;
      LoadFragment(dest, next * FRAG, mat, blockRow, blockCol, n);
      next := next + 1;
      LoadStep(old0, before, dest[..], sm, blockRows, n, blockRow, blockCol, prefix, f, next);
    }
  }

  /** Fragment slot f of a fragment array: its 32 words from f * 32 on. */
  function Chunk(s: seq<bv32>, f: nat): seq<bv32>
    requires f * FRAG + FRAG <= |s|
  {
    s[f * FRAG..f * FRAG + FRAG]
  }

  /** The matrix after storeFragment has stored fragment start + c of src as block (blockRow, c), for c < count. */
  function StoreRow(mat: seq<bv32>, src: seq<bv32>, blockRows: nat, n: nat, blockRow: nat, start: nat, count: nat): (r: seq<bv32>)
    requires BlocksFit(|mat|, blockRows, n) && blockRow < blockRows && count <= n / 32 && (start + count) * FRAG <= |src|
    ensures |r| == |mat|
  {
    if count == 0 then mat
    else
      BlockFits(|mat|, blockRows, n, blockRow, count - 1);
      StoreSpec(StoreRow(mat, src, blockRows, n, blockRow, start, count - 1),
                Chunk(src, start + count - 1), blockRow, count - 1, n)
  }

  /** The matrix after storeFramentsToBinaryMatrix has stored the fragments of the first rows block rows of src. */
  function StoreAll(mat: seq<bv32>, src: seq<bv32>, blockRows: nat, n: nat, rows: nat): (r: seq<bv32>)
    requires BlocksFit(|mat|, blockRows, n) && rows <= blockRows && blockRows * (n / 32) * FRAG <= |src|
    ensures |r| == |mat|
  {
    if rows == 0 then mat
    else
      RowSlots(rows - 1, blockRows, n / 32);
      MulMonotone(rows * (n / 32), blockRows * (n / 32), FRAG);
      StoreRow(StoreAll(mat, src, blockRows, n, rows - 1), src, blockRows, n, rows - 1, (rows - 1) * (n / 32), n / 32)
  }

  /**
   * storeFramentsToBinaryMatrix: store fragment br * (n / 32) + bc of src as
   * block (br, bc); words outside the blocks keep their values.
   */
  method StoreFragmentsToBinaryMatrix(src: array<bv32>, mat: array<bv32>, m: nat, n: nat)
    requires src != mat
    requires BlocksFit(mat.Length, m / FRAG, n) && (m / FRAG) * (n / FRAG) * FRAG <= src.Length
    modifies mat
    ensures mat[..] == StoreAll(old(mat[..]), src[..], m / FRAG, n, m / FRAG)
    ensures forall br, bc, i :: 0 <= br < m / FRAG && 0 <= bc < n / 32 && 0 <= i < FRAG ==>
      WordIndex(br, bc, n, i) < mat.Length && FragWord(br, bc, n, i) < src.Length &&
      mat[WordIndex(br, bc, n, i)] == src[FragWord(br, bc, n, i)]
    ensures forall j :: 0 <= j < mat.Length && OutsideBlocks(j, m / FRAG, n) ==> mat[j] == old(mat[j])
  {
    var blockRows := m / FRAG;
    var blockCols := n / FRAG;
    var fragmentN: nat := 0;
    for blockRow := 0 to blockRows
      invariant fragmentN == blockRow * blockCols
      invariant mat[..] == StoreAll(old(mat[..]), src[..], blockRows, n, blockRow)
    {
      NextBlockRow(blockRow, blockRows, blockCols);
      StoreBlockRow(src, mat, blockRows, n, blockRow, fragmentN, old(mat[..]));
      fragmentN := fragmentN + blockCols;
    }
    StoreAllBlocks(old(mat[..]), src[..], blockRows, n);
    StoreAllOutside(old(mat[..]), src[..], blockRows, n);
  }

  /**
   * The inner loop of storeFramentsToBinaryMatrix: the fragments of block
   * row blockRow, numbered from start = blockRow * (n / 32).
   */
  method StoreBlockRow(src: array<bv32>, mat: array<bv32>, blockRows: nat, n: nat, blockRow: nat, start: nat,
                       ghost old0: seq<bv32>)
    requires src != mat && blockRow < blockRows && |old0| == mat.Length && BlocksFit(mat.Length, blockRows, n)
    requires start == blockRow * (n / FRAG) && blockRows * (n / FRAG) * FRAG <= src.Length
    requires mat[..] == StoreAll(old0, src[..], blockRows, n, blockRow)
    modifies mat
    ensures mat[..] == StoreAll(old0, src[..], blockRows, n, blockRow + 1)
  {
    var blockCols := n / FRAG;
    ghost var base := mat[..];
    RowSlots(blockRow, blockRows, blockCols);
    MulMonotone(start + blockCols, blockRows * blockCols, FRAG);
    var fragmentN := start;
    for blockCol := 0 to blockCols
      invariant fragmentN == start + blockCol
      invariant mat[..] == StoreRow(base, src[..], blockRows, n, blockRow, start, blockCol)
    {
      BlockFits(mat.Length, blockRows, n, blockRow, blockCol);
      StoreFragment(src, fragmentN * FRAG, mat, blockRow, blockCol, n);
      fragmentN := fragmentN + 1;
    }
  }

  /** Fragment slot blockRow * (n / 32) + blockCol of the loaded array is block (blockRow, blockCol). */
  lemma LoadedChunk(mat: seq<bv32>, blockRows: nat, n: nat, blockRow: nat, blockCol: nat, f: nat)
    requires BlocksFit(|mat|, blockRows, n) && blockRow < blockRows && blockCol < n / 32
    requires f == blockRow * (n / 32) + blockCol
    ensures f * FRAG + FRAG <= |Concat(FragmentList(mat, blockRows, n, blockRows))|
    ensures FragmentFits(|mat|, blockRow, blockCol, n)
    ensures Chunk(Concat(FragmentList(mat, blockRows, n, blockRows)), f) == FragmentOf(mat, blockRow, blockCol, n)
  {
    FragmentListAt(mat, blockRows, n, blockRows, blockRow, blockCol, f);
    FragmentListUniform(mat, blockRows, n, blockRows);
    ConcatSlice(FragmentList(mat, blockRows, n, blockRows), FRAG, f);
  }

  /** Storing back the first count fragments of a block row just loaded leaves the matrix as it was. */
  lemma {:induction false} StoreRowLoaded(mat: seq<bv32>, src: seq<bv32>, blockRows: nat, n: nat, blockRow: nat,
                                          start: nat, count: nat)
    requires BlocksFit(|mat|, blockRows, n) && blockRow < blockRows && count <= n / 32
    requires start == blockRow * (n / 32) && src == Concat(FragmentList(mat, blockRows, n, blockRows))
    ensures (start + count) * FRAG <= |src|
    ensures StoreRow(mat, src, blockRows, n, blockRow, start, count) == mat
  {
    LoadedLength(mat, blockRows, n);
    RowSlots(blockRow, blockRows, n / 32);
    MulMonotone(start + count, blockRows * (n / 32), FRAG);
    if count > 0 {
      StoreRowLoaded(mat, src, blockRows, n, blockRow, start, count - 1);
      LoadedChunk(mat, blockRows, n, blockRow, count - 1, start + count - 1);
      StoreAfterLoad(mat, blockRow, count - 1, n);
    }
  }

  /** StoreAll of rows block rows stores the last of them, from fragment start on, after the others. */
  lemma StoreAllStep(mat: seq<bv32>, src: seq<bv32>, blockRows: nat, n: nat, rows: nat) returns (start: nat)
    requires BlocksFit(|mat|, blockRows, n) && 0 < rows <= blockRows && blockRows * (n / 32) * FRAG <= |src|
    ensures start == (rows - 1) * (n / 32) && (start + n / 32) * FRAG <= |src|
    ensures StoreAll(mat, src, blockRows, n, rows) ==
      StoreRow(StoreAll(mat, src, blockRows, n, rows - 1), src, blockRows, n, rows - 1, start, n / 32)
  {
    RowSlots(rows - 1, blockRows, n / 32);
    MulMonotone(rows * (n / 32), blockRows * (n / 32), FRAG);
    start := (rows - 1) * (n / 32);
  }

  /** Storing back the first rows block rows of the fragments of a matrix leaves the matrix as it was. */
  lemma {:induction false} StoreAllLoaded(mat: seq<bv32>, src: seq<bv32>, blockRows: nat, n: nat, rows: nat)
    requires BlocksFit(|mat|, blockRows, n) && rows <= blockRows
    requires src == Concat(FragmentList(mat, blockRows, n, blockRows))
    ensures blockRows * (n / 32) * FRAG <= |src|
    ensures StoreAll(mat, src, blockRows, n, rows) == mat
  {
    LoadedLength(mat, blockRows, n);
    if rows > 0 {
      StoreAllLoaded(mat, src, blockRows, n, rows - 1);
      var start := StoreAllStep(mat, src, blockRows, n, rows);
      StoreRowLoaded(mat, src, blockRows, n, rows - 1, start, n / 32);
    }
  }

  /**
   * Splitting a matrix into fragments with loadBinaryMatrixToFragments and
   * storing them back with storeFramentsToBinaryMatrix restores the matrix.
   */
  lemma BatchStoreAfterLoad(mat: seq<bv32>, m: nat, n: nat)
    requires BlocksFit(|mat|, m / FRAG, n)
    ensures |Concat(FragmentList(mat, m / FRAG, n, m / FRAG))| == (m / FRAG) * (n / 32) * FRAG
    ensures StoreAll(mat, Concat(FragmentList(mat, m / FRAG, n, m / FRAG)), m / FRAG, n, m / FRAG) == mat
  {
    LoadedLength(mat, m / FRAG, n);
    StoreAllLoaded(mat, Concat(FragmentList(mat, m / FRAG, n, m / FRAG)), m / FRAG, n, m / FRAG);
  }

  /** Word j is none of the words of blocks (blockRow, 0) .. (blockRow, count - 1). */
  ghost predicate OutsideRow(j: nat, blockRow: nat, n: nat, count: nat)
  {
    forall bc, i :: 0 <= bc < count && 0 <= i < FRAG ==> j != WordIndex(blockRow, bc, n, i)
  }

  /** Word j is none of the words of the blocks of block rows 0 .. rows - 1. */
  ghost predicate OutsideBlocks(j: nat, rows: nat, n: nat)
  {
    forall br, bc, i :: 0 <= br < rows && 0 <= bc < n / 32 && 0 <= i < FRAG ==> j != WordIndex(br, bc, n, i)
  }

  /** The index, in a fragment array, of word i of fragment br * (n / 32) + bc. */
  function FragWord(br: nat, bc: nat, n: nat, i: nat): nat
  {
    (br * (n / 32) + bc) * FRAG + i
  }

  /** Word i of fragment slot f of an array of total slots is inside the array. */
  lemma SlotWord(f: nat, total: nat, len: nat, i: nat)
    requires f < total && total * FRAG <= len && i < FRAG
    ensures f * FRAG + i < len
  {
    SlotFits(f, total, len);
  }

  /** Row i of block (blockRow, bc), bc < count, holds word i of fragment start + bc once count blocks are stored. */
  lemma {:induction false} StoreRowWritten(mat: seq<bv32>, src: seq<bv32>, blockRows: nat, n: nat, blockRow: nat,
                                           start: nat, count: nat, bc: nat, i: nat)
    requires BlocksFit(|mat|, blockRows, n) && blockRow < blockRows && count <= n / 32 && (start + count) * FRAG <= |src|
    requires bc < count && i < FRAG
    ensures WordIndex(blockRow, bc, n, i) < |mat| && (start + bc) * FRAG + i < |src|
    ensures StoreRow(mat, src, blockRows, n, blockRow, start, count)[WordIndex(blockRow, bc, n, i)] == src[(start + bc) * FRAG + i]
  {
    BlockFits(|mat|, blockRows, n, blockRow, count - 1);
    BlockFits(|mat|, blockRows, n, blockRow, bc);
    SlotWord(start + bc, start + count, |src|, i);
    var prev := StoreRow(mat, src, blockRows, n, blockRow, start, count - 1);
    StoreFragmentWrites(prev, Chunk(src, start + count - 1), blockRow, count - 1, n);
    var last := count - 1;
    if bc < last {
      forall i2 | 0 <= i2 < FRAG
        ensures WordIndex(blockRow, bc, n, i) != WordIndex(blockRow, last, n, i2)
      {
        if WordIndex(blockRow, bc, n, i) == WordIndex(blockRow, last, n, i2) {
          WordIndexDistinct(blockRow, bc, i, blockRow, last, i2, n);
        }
      }
      StoreRowWritten(mat, src, blockRows, n, blockRow, start, count - 1, bc, i);
    }
  }

  /** A word outside the first count blocks of the block row keeps its value. */
  lemma {:induction false} StoreRowKept(mat: seq<bv32>, src: seq<bv32>, blockRows: nat, n: nat, blockRow: nat,
                                        start: nat, count: nat, j: nat)
    requires BlocksFit(|mat|, blockRows, n) && blockRow < blockRows && count <= n / 32 && (start + count) * FRAG <= |src|
    requires j < |mat| && OutsideRow(j, blockRow, n, count)
    ensures StoreRow(mat, src, blockRows, n, blockRow, start, count)[j] == mat[j]
  {
    if count > 0 {
      BlockFits(|mat|, blockRows, n, blockRow, count - 1);
      var prev := StoreRow(mat, src, blockRows, n, blockRow, start, count - 1);
      StoreRowKept(mat, src, blockRows, n, blockRow, start, count - 1, j);
      StoreWordsKept(prev, Chunk(src, start + count - 1), blockRow, count - 1, n, FRAG, j);
    }
  }

  /**
   * After the first rows block rows are stored, row i of block (br, bc)
   * holds word i of fragment br * (n / 32) + bc of src.
   */
  lemma {:induction false} StoreAllWritten(mat: seq<bv32>, src: seq<bv32>, blockRows: nat, n: nat, rows: nat,
                                           br: nat, bc: nat, i: nat)
    requires BlocksFit(|mat|, blockRows, n) && rows <= blockRows && blockRows * (n / 32) * FRAG <= |src|
    requires br < rows && bc < n / 32 && i < FRAG
    ensures WordIndex(br, bc, n, i) < |mat| && FragWord(br, bc, n, i) < |src|
    ensures StoreAll(mat, src, blockRows, n, rows)[WordIndex(br, bc, n, i)] == src[FragWord(br, bc, n, i)]
  {
    var start := StoreAllStep(mat, src, blockRows, n, rows);
    var prev := StoreAll(mat, src, blockRows, n, rows - 1);
    var last := rows - 1;
    if br == last {
      StoreRowWritten(prev, src, blockRows, n, last, start, n / 32, bc, i);
    } else {
      forall bc2, i2 | 0 <= bc2 < n / 32 && 0 <= i2 < FRAG
        ensures WordIndex(br, bc, n, i) != WordIndex(last, bc2, n, i2)
      {
        if WordIndex(br, bc, n, i) == WordIndex(last, bc2, n, i2) {
          WordIndexDistinct(br, bc, i, last, bc2, i2, n);
        }
      }
      StoreAllWritten(mat, src, blockRows, n, last, br, bc, i);
      StoreRowKept(prev, src, blockRows, n, last, start, n / 32, WordIndex(br, bc, n, i));
    }
  }

  /** A word outside the blocks of the first rows block rows keeps its value. */
  lemma {:induction false} StoreAllKept(mat: seq<bv32>, src: seq<bv32>, blockRows: nat, n: nat, rows: nat, j: nat)
    requires BlocksFit(|mat|, blockRows, n) && rows <= blockRows && blockRows * (n / 32) * FRAG <= |src|
    requires j < |mat| && OutsideBlocks(j, rows, n)
    ensures StoreAll(mat, src, blockRows, n, rows)[j] == mat[j]
  {
    if rows > 0 {
      var start := StoreAllStep(mat, src, blockRows, n, rows);
      StoreAllKept(mat, src, blockRows, n, rows - 1, j);
      StoreRowKept(StoreAll(mat, src, blockRows, n, rows - 1), src, blockRows, n, rows - 1, start, n / 32, j);
    }
  }

  /**
   * storeFramentsToBinaryMatrix on any fragment array: block (br, bc) of the
   * matrix receives fragment br * (n / 32) + bc.
   */
  lemma StoreAllBlocks(mat: seq<bv32>, src: seq<bv32>, blockRows: nat, n: nat)
    requires BlocksFit(|mat|, blockRows, n) && blockRows * (n / 32) * FRAG <= |src|
    ensures forall br, bc, i :: 0 <= br < blockRows && 0 <= bc < n / 32 && 0 <= i < FRAG ==>
      WordIndex(br, bc, n, i) < |mat| && FragWord(br, bc, n, i) < |src| &&
      StoreAll(mat, src, blockRows, n, blockRows)[WordIndex(br, bc, n, i)] == src[FragWord(br, bc, n, i)]
  {
    forall br, bc, i | 0 <= br < blockRows && 0 <= bc < n / 32 && 0 <= i < FRAG
      ensures WordIndex(br, bc, n, i) < |mat| && FragWord(br, bc, n, i) < |src| &&
        StoreAll(mat, src, blockRows, n, blockRows)[WordIndex(br, bc, n, i)] == src[FragWord(br, bc, n, i)]
    {
      StoreAllWritten(mat, src, blockRows, n, blockRows, br, bc, i);
    }
  }

  /** storeFramentsToBinaryMatrix keeps every word outside the blocks. */
  lemma StoreAllOutside(mat: seq<bv32>, src: seq<bv32>, blockRows: nat, n: nat)
    requires BlocksFit(|mat|, blockRows, n) && blockRows * (n / 32) * FRAG <= |src|
    ensures forall j :: 0 <= j < |mat| && OutsideBlocks(j, blockRows, n) ==>
      StoreAll(mat, src, blockRows, n, blockRows)[j] == mat[j]
  {
    forall j | 0 <= j < |mat| && OutsideBlocks(j, blockRows, n)
      ensures StoreAll(mat, src, blockRows, n, blockRows)[j] == mat[j]
    {
      StoreAllKept(mat, src, blockRows, n, blockRows, j);
    }
  }

  /**
   * Loading the fragments of a matrix just filled by storeFramentsToBinaryMatrix
   * gives back the fragment array that was stored, up to its last fragment.
   */
  lemma BatchLoadAfterStore(mat: seq<bv32>, src: seq<bv32>, m: nat, n: nat)
    requires BlocksFit(|mat|, m / FRAG, n) && (m / FRAG) * (n / 32) * FRAG <= |src|
    ensures BlocksFit(|StoreAll(mat, src, m / FRAG, n, m / FRAG)|, m / FRAG, n)
    ensures Concat(FragmentList(StoreAll(mat, src, m / FRAG, n, m / FRAG), m / FRAG, n, m / FRAG)) ==
      src[..(m / FRAG) * (n / 32) * FRAG]
  {
    var blockRows, cols := m / FRAG, n / 32;
    var stored := StoreAll(mat, src, blockRows, n, blockRows);
    var loaded := Concat(FragmentList(stored, blockRows, n, blockRows));
    LoadedLength(stored, blockRows, n);
    forall k | 0 <= k < |loaded|
      ensures loaded[k] == src[k]
    {
      var br, bc, f, i := SlotOf(k, blockRows, cols);
      FragmentLayout(stored, blockRows, n, br, bc, f, i);
      StoreAllWritten(mat, src, blockRows, n, blockRows, br, bc, i);
    }
  }

  /** Word k of an array of rows * cols fragments is word i of fragment f = br * cols + bc. */
  lemma SlotOf(k: nat, rows: nat, cols: nat) returns (br: nat, bc: nat, f: nat, i: nat)
    requires k < rows * cols * FRAG
    ensures br < rows && bc < cols && i < FRAG && f == br * cols + bc && k == f * FRAG + i
  {
    DivMod(k, FRAG);
    f, i := k / FRAG, k % FRAG;
    DivMod(f, cols);
    br, bc := f / cols, f % cols;
    if rows <= br {
      MulMonotone(rows, br, cols);
    }
  }

  // ---------------------------------------------------------------------
  // Fragments and bit addressing: when n is a multiple of 32, row i of
  // fragment (blockRow, blockCol) holds bits blockCol * 32 .. blockCol * 32 + 31
  // of matrix row blockRow * 32 + i, in getBit's column order.

  lemma BitPlace(blockRow: nat, blockCol: nat, n: nat, row: nat, t: nat)
    requires n % 32 == 0 && row < FRAG && t < 32
    ensures ((blockRow * FRAG + row) * n + (blockCol * FRAG + t)) / 32 == WordIndex(blockRow, blockCol, n, row)
    ensures ((blockRow * FRAG + row) * n + (blockCol * FRAG + t)) % 32 == t
  {
    var q := n / 32;
    var x := blockRow * FRAG + row;
    assert n == q * 32;
    assert x * n == (x * q) * 32;
    var w := WordIndex(blockRow, blockCol, n, row);
    assert x * n + (blockCol * FRAG + t) == w * 32 + t;
    BlockNumber(w, t, 32);
  }

  /** A matrix that holds rows x n bits packs its full fragments inside the buffer. */
  lemma MatrixFragmentFits(len: nat, rows: nat, n: nat, blockRow: nat, blockCol: nat)
    requires n % 32 == 0 && FitsMatrix(len, rows, n)
    requires blockRow * FRAG + FRAG <= rows && blockCol < n / 32
    ensures FragmentFits(len, blockRow, blockCol, n)
  {
    forall i | 0 <= i < FRAG
      ensures WordIndex(blockRow, blockCol, n, i) < len && WordIndex(blockRow, blockCol, n, i) < INT_LIMIT
    {
      FitsMatrixBit(len, rows, n, blockRow * FRAG + i, blockCol * FRAG);
      BitPlace(blockRow, blockCol, n, i, 0);
    }
  }

  /**
   * Column t of row word i of fragment (blockRow, blockCol) is getBit of
   * matrix bit (blockRow * 32 + i, blockCol * 32 + t).
   */
  lemma FragmentBit(mat: seq<bv32>, rows: nat, n: nat, blockRow: nat, blockCol: nat, row: nat, t: nat)
    requires n % 32 == 0 && FitsMatrix(|mat|, rows, n)
    requires blockRow * FRAG + FRAG <= rows && blockCol < n / 32 && row < FRAG && t < FRAG
    ensures FragmentFits(|mat|, blockRow, blockCol, n)
    ensures ValidBit(|mat|, blockRow * FRAG + row, blockCol * FRAG + t, n)
    ensures FragBit(FragmentOf(mat, blockRow, blockCol, n), row, t) ==
      GetBit(mat, blockRow * FRAG + row, blockCol * FRAG + t, n)
  {
    MatrixFragmentFits(|mat|, rows, n, blockRow, blockCol);
    FitsMatrixBit(|mat|, rows, n, blockRow * FRAG + row, blockCol * FRAG + t);
    BitPlace(blockRow, blockCol, n, row, t);
  }

  /** Two fragment words of an n-column matrix coincide only for the same fragment and the same row. */
  lemma WordIndexDistinct(blockRow: nat, blockCol: nat, row: nat, blockRow2: nat, blockCol2: nat, row2: nat, n: nat)
    requires blockCol < n / 32 && blockCol2 < n / 32 && row < FRAG && row2 < FRAG
    requires WordIndex(blockRow, blockCol, n, row) == WordIndex(blockRow2, blockCol2, n, row2)
    ensures blockRow == blockRow2 && blockCol == blockCol2 && row == row2
  {
    LinearIndexInjective(blockRow * FRAG + row, blockCol, blockRow2 * FRAG + row2, blockCol2, n / 32);
    LinearIndexInjective(blockRow, row, blockRow2, row2, FRAG);
  }

  /** After storeFragment, the bits of block (blockRow, blockCol) are the bits of the stored fragment. */
  lemma StoreSetsBit(mat: seq<bv32>, src: seq<bv32>, rows: nat, n: nat, blockRow: nat, blockCol: nat, row: nat, t: nat)
    requires n % 32 == 0 && FitsMatrix(|mat|, rows, n) && |src| == FRAG
    requires blockRow * FRAG + FRAG <= rows && blockCol < n / 32 && row < FRAG && t < FRAG
    ensures FragmentFits(|mat|, blockRow, blockCol, n)
    ensures ValidBit(|StoreSpec(mat, src, blockRow, blockCol, n)|, blockRow * FRAG + row, blockCol * FRAG + t, n)
    ensures GetBit(StoreSpec(mat, src, blockRow, blockCol, n), blockRow * FRAG + row, blockCol * FRAG + t, n) == FragBit(src, row, t)
  {
    MatrixFragmentFits(|mat|, rows, n, blockRow, blockCol);
    var after := StoreSpec(mat, src, blockRow, blockCol, n);
    LoadAfterStore(mat, src, blockRow, blockCol, n);
    FragmentBit(after, rows, n, blockRow, blockCol, row, t);
  }

  /** storeFragment keeps every bit outside block (blockRow, blockCol). */
  lemma StoreKeepsBit(mat: seq<bv32>, src: seq<bv32>, rows: nat, n: nat, blockRow: nat, blockCol: nat, r: nat, c: nat)
    requires n % 32 == 0 && FitsMatrix(|mat|, rows, n) && |src| == FRAG
    requires blockRow * FRAG + FRAG <= rows && blockCol < n / 32 && r < rows && c < n
    requires !(blockRow * FRAG <= r < blockRow * FRAG + FRAG && blockCol * FRAG <= c < blockCol * FRAG + FRAG)
    ensures FragmentFits(|mat|, blockRow, blockCol, n)
    ensures ValidBit(|mat|, r, c, n)
    ensures GetBit(StoreSpec(mat, src, blockRow, blockCol, n), r, c, n) == GetBit(mat, r, c, n)
  {
    MatrixFragmentFits(|mat|, rows, n, blockRow, blockCol);
    FitsMatrixBit(|mat|, rows, n, r, c);
    DivMod(r, FRAG);
    DivMod(c, FRAG);
    var br, row, bc, t := r / FRAG, r % FRAG, c / FRAG, c % FRAG;
    assert c / 32 < n / 32;
    BitPlace(br, bc, n, row, t);
    var w := WordIndex(br, bc, n, row);
    StoreFragmentWrites(mat, src, blockRow, blockCol, n);
    forall i | 0 <= i < FRAG
      ensures w != WordIndex(blockRow, blockCol, n, i)
    {
      if w == WordIndex(blockRow, blockCol, n, i) {
        WordIndexDistinct(br, bc, row, blockRow, blockCol, i, n);
      }
    }
  }
}
