/**
 * Transposition of bit-packed matrices.  A fragment is a 32 x 32 bit
 * block stored as 32 words, one row per word; transposeBinaryFragment
 * turns its rows into columns bit by bit with getBit/setBit.
 * transposeBinaryMatrix does the same for an M x N matrix but writes the
 * output with row width N.
 */
module Transpose {
  import opened Words
  import opened BitMatrix

  /** out holds the transpose of the fragment inp: bit (j, i) of out is bit (i, j) of inp. */
  predicate IsTranspose(out: seq<bv32>, inp: seq<bv32>)
  {
    |out| == FRAG && |inp| == FRAG &&
    forall i, j :: 0 <= i < FRAG && 0 <= j < FRAG ==> FragBit(out, j, i) == FragBit(inp, i, j)
  }

  /**
   * transposeBinaryFragment: every output bit is written, so the result
   * is the transpose of the input whatever output held before.
   */
  method TransposeBinaryFragment(input: array<bv32>, output: array<bv32>)
    requires input.Length == FRAG && output.Length == FRAG && input != output
    modifies output
    ensures IsTranspose(output[..], input[..])
  {
    for i := 0 to FRAG
      invariant forall ii, jj :: 0 <= ii < i && 0 <= jj < FRAG ==> FragBit(output[..], jj, ii) == FragBit(input[..], ii, jj)
    {
      for j := 0 to FRAG
        invariant forall ii, jj :: 0 <= ii < i && 0 <= jj < FRAG ==> FragBit(output[..], jj, ii) == FragBit(input[..], ii, jj)
        invariant forall jj :: 0 <= jj < j ==> FragBit(output[..], jj, i) == FragBit(input[..], i, jj)
      {
        FragGetBit(input[..], i, j);
        var bit := GetBit(input[..], i, j, FRAG);
        FragSetBit(output[..], j, i, bit);
        SetBit(output, j, i, bit, FRAG);
      }
    }
  }

  /** The transpose of a fragment is unique: two transposes of the same input are equal. */
  lemma TransposeUnique(inp: seq<bv32>, out1: seq<bv32>, out2: seq<bv32>)
    requires IsTranspose(out1, inp) && IsTranspose(out2, inp)
    ensures out1 == out2
  {
    forall r | 0 <= r < FRAG
      ensures out1[r] == out2[r]
    {
      forall c | 0 <= c < FRAG
        ensures WordBit(out1[r], c) == WordBit(out2[r], c)
      {
        assert FragBit(out1, r, c) == FragBit(inp, c, r);
        assert FragBit(out2, r, c) == FragBit(inp, c, r);
      }
      WordsEqual(out1[r], out2[r]);
    }
  }

  /** Transposing a fragment twice gives back the original fragment. */
  lemma TransposeInvolution(a: seq<bv32>, b: seq<bv32>, c: seq<bv32>)
    requires IsTranspose(b, a) && IsTranspose(c, b)
    ensures c == a
  {
    forall r | 0 <= r < FRAG
      ensures c[r] == a[r]
    {
      forall col | 0 <= col < FRAG
        ensures WordBit(c[r], col) == WordBit(a[r], col)
      {
        assert FragBit(c, r, col) == FragBit(b, col, r);
        assert FragBit(b, col, r) == FragBit(a, r, col);
      }
      WordsEqual(c[r], a[r]);
    }
  }

  // ---------------------------------------------------------------------
  // transposeBinaryMatrix

  /**
   * The output buffer of transposeBinaryMatrix: it writes bit (j, i) with row
   * width N for every i < M, j < N, so the largest index is (N - 1) * N + M - 1.
   */
  predicate FitsTransposeOutput(len: nat, m: nat, n: nat)
  {
    m == 0 || n == 0 || ((n - 1) * n + m <= INT_LIMIT && (n - 1) * n + m <= 32 * len)
  }

  lemma TransposeOutputBit(len: nat, m: nat, n: nat, i: nat, j: nat)
    requires FitsTransposeOutput(len, m, n) && i < m && j < n
    ensures ValidBit(len, j, i, n)
  {
    MulMonotone(j, n - 1, n);
  }

  /**
   * out keeps the bits of before that transposeBinaryMatrix never writes:
   * every cell (r, c) of the N-wide output with r >= N or c >= M.
   */
  ghost predicate KeepsUnwritten(out: seq<bv32>, before: seq<bv32>, m: nat, n: nat)
  {
    |out| == |before| &&
    forall r, c :: 0 <= c < n && (n <= r || m <= c) && ValidBit(|before|, r, c, n) ==>
      GetBit(out, r, c, n) == GetBit(before, r, c, n)
  }

  /** The write of cell (j, i), i < M <= N, j < N, keeps every cell transposeBinaryMatrix never writes. */
  lemma KeepsUnwrittenStep(before: seq<bv32>, old0: seq<bv32>, m: nat, n: nat, i: nat, j: nat, bit: bool)
    requires m <= n && i < m && j < n && ValidBit(|before|, j, i, n)
    requires KeepsUnwritten(before, old0, m, n)
    ensures KeepsUnwritten(SetBitSpec(before, j, i, bit, n), old0, m, n)
  {
    forall r, c | 0 <= c < n && (n <= r || m <= c) && ValidBit(|old0|, r, c, n)
      ensures GetBit(SetBitSpec(before, j, i, bit, n), r, c, n) == GetBit(old0, r, c, n)
    {
      GetAfterSetOther(before, j, i, bit, n, r, c);
    }
  }

  /**
   * transposeBinaryMatrix, as written: output bit (j, i) of an N-wide
   * matrix receives input bit (i, j).  When M <= N no two writes meet, the
   * output's first M columns are the transpose of the input, and every other
   * bit of the output keeps its value.
   */
  method TransposeBinaryMatrix(input: array<bv32>, output: array<bv32>, m: nat, n: nat)
    requires input != output
    requires FitsMatrix(input.Length, m, n) && FitsTransposeOutput(output.Length, m, n)
    modifies output
    ensures m <= n ==> forall i, j :: 0 <= i < m && 0 <= j < n ==>
      ValidBit(output.Length, j, i, n) && ValidBit(input.Length, i, j, n) &&
      GetBit(output[..], j, i, n) == GetBit(input[..], i, j, n)
    ensures m <= n ==> KeepsUnwritten(output[..], old(output[..]), m, n)
    ensures n == 0 ==> output[..] == old(output[..])
  {
    ghost var old0 := output[..];
    for i := 0 to m
      invariant m <= n ==> forall ii, jj :: 0 <= ii < i && 0 <= jj < n ==>
        ValidBit(output.Length, jj, ii, n) && ValidBit(input.Length, ii, jj, n) &&
        GetBit(output[..], jj, ii, n) == GetBit(input[..], ii, jj, n)
      invariant m <= n ==> KeepsUnwritten(output[..], old0, m, n)
      invariant n == 0 ==> output[..] == old0
    {
      for j := 0 to n
        invariant m <= n ==> forall ii, jj :: 0 <= ii < i && 0 <= jj < n ==>
          ValidBit(output.Length, jj, ii, n) && ValidBit(input.Length, ii, jj, n) &&
          GetBit(output[..], jj, ii, n) == GetBit(input[..], ii, jj, n)
        invariant m <= n ==> forall jj :: 0 <= jj < j ==>
          ValidBit(output.Length, jj, i, n) && ValidBit(input.Length, i, jj, n) &&
          GetBit(output[..], jj, i, n) == GetBit(input[..], i, jj, n)
        invariant m <= n ==> KeepsUnwritten(output[..], old0, m, n)
        invariant n == 0 ==> output[..] == old0
      {
        FitsMatrixBit(input.Length, m, n, i, j);
        TransposeOutputBit(output.Length, m, n, i, j);
        var bit := GetBit(input[..], i, j, n);
        ghost var before := output[..];
        SetBit(output, j, i, bit, n);
        if m <= n {
          forall ii, jj | 0 <= ii < m && 0 <= jj < n
            ensures ValidBit(output.Length, jj, ii, n) &&
              GetBit(output[..], jj, ii, n) == if jj == j && ii == i then bit else GetBit(before, jj, ii, n)
          {
            TransposeOutputBit(output.Length, m, n, ii, jj);
            GetAfterSetBit(before, j, i, bit, n, jj, ii);
          }
          KeepsUnwrittenStep(before, old0, m, n, i, j, bit);
        }
      }
    }
  }
}
