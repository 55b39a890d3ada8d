# BinaryMatMul in Dafny

A model of the BinaryMatMul library. The library is a small C library for
1-bit ("binary") matrix multiplication on a microcontroller with a BTPU
coprocessor. The model covers four parts of it, with proofs.

- **Bit-packed matrices.** An M x N binary matrix stores bit (r, c) at linear index
  `r * N + c`, in word `index / 32`, column `index % 32` (most significant
  bit first). `getBit` and `setBit` read and write one such bit, and two
  transposes are built on them.
- **Word and fragment kernels.**
  - `popcount32` is a SWAR bit count.
  - `binaryMul` is `popcount32(~(a ^ b))`, the number of equal bits of two words.
  - The 32 x 32 multiply-accumulate kernels work on *fragments*: 32 words, one row per word.
  - An *accumulator* is a 32 x 32 grid of `uint32_t`.
- **Tiled operations.**
  - Fragment load and store, `storeAcc` and `fillAccWithZero`.
  - The tiled product `binaryMatrixMul` and the thresholded product `fastBinaryMatrixMul`.
  - `binarizeMatrix`.
  - The batch converters between a matrix and an array of fragments.
- **The BTPU register-file driver.**
  - The register file is nine consecutive 32-bit slots. The control register is a union of a raw word and a seven-bit bitfield.
  - The driver functions set the block counts and the addresses, start an operation, and read back its result.

The model follows the C code's own form.
- **Pure C functions become Dafny functions.** `getBit`, `popcount32`, `xnor32`, `binaryMul` and `uint32_t` addition are modelled this way.
- **Code that updates memory becomes methods over arrays.** Their loops are kept and carry loop invariants.
  - Each method's `ensures` relates the new array contents to a specification function of the old contents.
  - Examples: `SetBitSpec`, `StoreSpec`, `FragmentOf`, `Concat(FragmentList(..))`, `StoreAll`.
- **Nested loops are split for proof.** Where a C function nests two or three loops, each inner loop is a separate method with its own contract.
  - Examples: `MultiplyBlockRow`, `MultiplyBlock`, `AccumulateBlock`, `AccumulateFragments`, `LoadBlockRow`, `StoreBlockRow`.
  - The outer method's loop calls the inner method. The statements executed and their order are unchanged.
- **The register file is a class.** `BtpuRegFile` has one field per `BTPURegFile_t` member. The control register is a datatype of its bitfields, and `Raw`/`FromRaw` convert to and from the raw 32-bit view.

The reference specification of the products is `Matmul.AgreeCount(a, b, m, n, k, r, c, n)`.
- It is the number of `t < n` with `getBit(a, r, t, n) == getBit(b, t, c, k)`.
- `BinaryMatrixMul` is proved to leave exactly this count in `result[r * k + c]`.
- `FastBinaryMatrixMul` is proved to set bit (r, c) of its output exactly when that count exceeds `signCmp`.
- `FastMatchesBinarize` connects the two: the fast product equals `binarizeMatrix` applied to the integer product.

Where the C code and its header's doc comments disagree, the model follows the code.
- The doc comment of `transposeBinaryMatrix` (BinaryMatMul/include/BinaryMatMul.h:97-104) describes an M x N input whose transpose is returned.
- The code writes the output with row width N (`setBit(output, j, i, bit, N)`).
- That is a true transpose only when M == N. The model keeps the row width N.

## Model

| member | source | states |
|---|---|---|
| BitMatrix.GetBit | BinaryMatMul/src/BinaryMatMul.c:16-23 | getBit reads column `(row*N+col) % 32` of word `(row*N+col) / 32`; its contract is stated by GetBitShifted (the C shift-and-mask test) and GetAfterSetBit (read after write) |
| BitMatrix.GetBitShifted | BinaryMatMul/src/BinaryMatMul.c:16-23 | getBit equals the C test `(mat[wordIndex] >> (31 - bitPos)) & 1` on word `bitIndex / 32` with `bitPos = bitIndex % 32` |
| Words.WordBitShifted | BinaryMatMul/src/BinaryMatMul.c:20-21 | testing column t of a word with the MSB-first mask is the same as `(x >> (31 - t)) & 1` |
| BitMatrix.SetBit | BinaryMatMul/src/BinaryMatMul.c:26-36 | setBit updates word `(row*N+col)/32` in place, leaving the matrix equal to SetBitSpec of the old matrix; the index must stay a non-negative `int` and inside the buffer |
| BitMatrix.SetBitWritesOneBit | BinaryMatMul/src/BinaryMatMul.c:26-36 | after setBit, column `index % 32` of word `index / 32` holds value and every other bit of every word is unchanged |
| BitMatrix.WithBitColumns | BinaryMatMul/src/BinaryMatMul.c:31-35 | or-ing in the column mask `1u << (31 - t)`, or and-ing with its complement, sets column t to the value and keeps the other 31 columns |
| BitMatrix.GetAfterSetBit | BinaryMatMul/src/BinaryMatMul.c:16-36 | getBit after setBit(row, col, v) returns v at (row, col) and the old bit at every other cell (c < N) |
| BitMatrix.GetAfterSetSame | BinaryMatMul/src/BinaryMatMul.c:16-36 | getBit reads back the bit setBit wrote |
| BitMatrix.GetAfterSetOther | BinaryMatMul/src/BinaryMatMul.c:16-36 | setBit does not change getBit at any other cell of the matrix |
| BitMatrix.LinearIndexInjective | BinaryMatMul/src/BinaryMatMul.c:17 | two cells with column < N share the bit index `row * N + col` only if they are the same cell |
| BitMatrix.FragGetBit | BinaryMatMul/src/BinaryMatMul.c:51 | getBit on a fragment (N = 32) reads column c of row word r |
| BitMatrix.FragSetBit | BinaryMatMul/src/BinaryMatMul.c:52 | setBit on a fragment (N = 32) writes bit (r, c) and keeps the other 1023 bits |
| Words.Popcount32 | BinaryMatMul/src/BinaryMatMul.c:59-66 | popcount32(x) is the number of set bits of x (CountOnes, a bit-by-bit count), in 0..32; proved by PopcountCountsOnes |
| Words.PopcountCountsOnes | BinaryMatMul/src/BinaryMatMul.c:59-66 | the SWAR steps of popcount32 compute exactly the number of set bits of x, which lies in 0..32 |
| Words.XnorBit | BinaryMatMul/src/BinaryMatMul.c:68-70 | column t of xnor32(a, b) is set exactly when a and b agree on column t |
| Words.Xnor32 | BinaryMatMul/src/BinaryMatMul.c:68-70 | column t of xnor32(a, b) is set exactly when a and b agree on column t, for all 32 columns; proved by XnorBit |
| Words.XnorCountsEqualBits | BinaryMatMul/src/BinaryMatMul.c:68-76 | the number of ones among the first n columns of xnor32(a, b) is the number of those columns on which a and b agree |
| Words.BinaryMulCountsEqualBits | BinaryMatMul/include/BinaryMatMul.h:116-124 | binaryMul(a, b) is the number of equal bits of its two operands |
| Words.BinaryMul | BinaryMatMul/src/BinaryMatMul.c:72-80 | binaryMul(a, b) is EqualBits(a, b, 32), the number of bit positions on which a and b agree; proved by XnorCountsEqualBits and BinaryMulCountsEqualBits |
| Words.BinaryMulRange | BinaryMatMul/src/BinaryMatMul.c:72-80 | binaryMul lies in 0..32 |
| Words.BinaryMulCommutes | BinaryMatMul/src/BinaryMatMul.c:72-80 | binaryMul(a, b) == binaryMul(b, a) |
| Words.BinaryMulSelf | BinaryMatMul/src/BinaryMatMul.c:72-80 | binaryMul(a, a) == 32 |
| Words.BinaryMulComplement | BinaryMatMul/src/BinaryMatMul.c:72-80 | binaryMul(a, ~a) == 0 |
| Words.EqualBitsSymmetric | BinaryMatMul/include/BinaryMatMul.h:116-124 | the count of equal bits does not depend on the order of the operands |
| Words.EqualBitsSelf | BinaryMatMul/include/BinaryMatMul.h:116-124 | a word agrees with itself on all n columns |
| Words.EqualBitsComplement | BinaryMatMul/include/BinaryMatMul.h:116-124 | a word agrees with its complement on no column |
| Transpose.TransposeBinaryFragment | BinaryMatMul/src/BinaryMatMul.c:47-57 | after the call, bit (j, i) of output equals bit (i, j) of input for all i, j < 32, whatever output held before |
| Transpose.TransposeUnique | BinaryMatMul/src/BinaryMatMul.c:47-54 | the transpose of a fragment is unique, so the result does not depend on the prior output contents |
| Transpose.TransposeInvolution | BinaryMatMul/src/BinaryMatMul.c:47-54 | transposing a fragment twice gives back the input |
| Transpose.TransposeBinaryMatrix | BinaryMatMul/src/BinaryMatMul.c:38-45 | with output row width N as written, for M <= N every input bit (i, j) is found at (j, i) of the output and every output cell (r, c) with c < N and r >= N or c >= M keeps its old value; for N = 0 the output is unchanged |
| Transpose.KeepsUnwrittenStep | BinaryMatMul/src/BinaryMatMul.c:42-43 | one `setBit(output, j, i, bit, N)` with i < M <= N, j < N keeps every output cell the loops never write |
| Kernels.Add32 | BinaryMatMul/src/BinaryMatMul.c:85 | `uint32_t` addition: the sum, or the sum minus 2^32 when it overflows; exact when there is no overflow |
| Kernels.Mul32 | BinaryMatMul/src/BinaryMatMul.c:72-80 | binaryMul as a `uint32_t` is the number of equal bits of the two words |
| Kernels.BinaryBlockMatrixMul | BinaryMatMul/src/BinaryMatMul.c:82-88 | every one of the 1024 cells becomes `(acc[r][c] + binaryMul(a[r], b[c])) mod 2^32`; a and b are not modified |
| Kernels.FastBinaryBlockMatrixMul | BinaryMatMul/src/BinaryMatMul.c:90-104 | the same accumulator update; when store is set, bit (r, c) of c is set iff the new `acc[r][c] > signCmp`; otherwise c is left unchanged |
| Kernels.FillAccWithZero | BinaryMatMul/src/BinaryMatMul.c:140-146 | every accumulator cell is 0 |
| Kernels.StoreAcc | BinaryMatMul/src/BinaryMatMul.c:130-138 | entry `(blockRow*32+row)*n + blockCol*32+col` of mat becomes `acc[row][col]` and every other entry is unchanged |
| Kernels.AccIndexPlace | BinaryMatMul/src/BinaryMatMul.c:131-135 | the storeAcc index of (row, col) lies in matrix row `blockRow*32+row`, column `blockCol*32+col` |
| Kernels.WrittenStep | BinaryMatMul/src/BinaryMatMul.c:133-136 | one more column of the storeAcc loop adds exactly its own index to the written entries |
| Fragments.WordIndexInjective | BinaryMatMul/src/BinaryMatMul.c:111-115 | for n >= 32 the 32 words a fragment reads (`wordRow += cols`) are distinct |
| Fragments.LoadWords | BinaryMatMul/src/BinaryMatMul.c:112-115 | row i of the loaded fragment is matrix word `(blockRow*32 + i)*(n/32) + blockCol` |
| Fragments.LoadFragment | BinaryMatMul/src/BinaryMatMul.c:107-117 | the 32 destination words become fragment (blockRow, blockCol) of mat; the rest of the destination is untouched |
| Fragments.StoreFragment | BinaryMatMul/src/BinaryMatMul.c:119-128 | the matrix becomes StoreSpec of the old matrix and the 32 source words |
| Fragments.StoreWordsWritten | BinaryMatMul/src/BinaryMatMul.c:124-127 | each of the 32 target words of storeFragment receives its fragment row |
| Fragments.StoreWordsKept | BinaryMatMul/src/BinaryMatMul.c:124-127 | a matrix word that is none of the 32 targets keeps its value |
| Fragments.StoreFragmentWrites | BinaryMatMul/src/BinaryMatMul.c:119-128 | storeFragment writes exactly its 32 target words with the fragment rows and nothing else |
| Fragments.LoadAfterStore | BinaryMatMul/src/BinaryMatMul.c:107-128 | loading a block after storing a fragment there returns the stored fragment |
| Fragments.StoreAfterLoad | BinaryMatMul/src/BinaryMatMul.c:107-128 | storing back a fragment just loaded from a block leaves the matrix unchanged |
| Fragments.StoreWordsLoaded | BinaryMatMul/src/BinaryMatMul.c:124-127 | storing back the first rows of a loaded fragment leaves the matrix unchanged |
| Fragments.RowBlocksAt | BinaryMatMul/src/BinaryMatMul.c:265-266 | entry blockCol of the fragments of a block row is block (blockRow, blockCol) |
| Fragments.RowBlocksUniform | BinaryMatMul/src/BinaryMatMul.c:265-266 | every fragment of a block row is 32 words |
| Fragments.FragmentListUniform | BinaryMatMul/src/BinaryMatMul.c:264-268 | every fragment produced by the batch loader is 32 words |
| Fragments.FragmentListLength | BinaryMatMul/src/BinaryMatMul.c:261-268 | the first rows block rows contribute `rows * (N/32)` fragments |
| Fragments.FragmentListPrefix | BinaryMatMul/src/BinaryMatMul.c:264-268 | the fragments of earlier block rows stay a prefix as further block rows are loaded |
| Fragments.FragmentListAt | BinaryMatMul/src/BinaryMatMul.c:263-266 | fragment number `blockRow*(N/32) + blockCol` is block (blockRow, blockCol) |
| Fragments.FragmentLayout | BinaryMatMul/src/BinaryMatMul.c:260-269 | word `f*32 + i` of dest, `f = br*(N/32) + bc`, is row i of block (br, bc), matrix word `(br*32 + i)*(N/32) + bc` |
| Fragments.LoadedLength | BinaryMatMul/include/BinaryMatMul.h:289 | the loaded fragments occupy `(M/32)*(N/32)` fragments of 32 words |
| Fragments.LoadStep | BinaryMatMul/src/BinaryMatMul.c:266 | one `loadFragment(dest[fragmentN++], ...)` appends block (blockRow, blockCol) at slot fragmentN and keeps the rest of dest |
| Fragments.LoadBlockRow | BinaryMatMul/src/BinaryMatMul.c:265-267 | the inner loop appends the N/32 fragments of one block row and advances fragmentN by N/32 |
| Fragments.LoadBinaryMatrixToFragments | BinaryMatMul/src/BinaryMatMul.c:260-269 | dest holds the blocks of mat in row-major block order, followed by the untouched rest of dest |
| Fragments.StoreBlockRow | BinaryMatMul/src/BinaryMatMul.c:276-278 | the inner loop stores fragments `start .. start + N/32 - 1` into the blocks of one block row |
| Fragments.StoreFragmentsToBinaryMatrix | BinaryMatMul/src/BinaryMatMul.c:271-280 | mat becomes StoreAll of the old matrix and src; word i of block (br, bc), matrix word `(br*32+i)*(N/32)+bc`, holds word `(br*(N/32)+bc)*32+i` of src, for any src; every word outside the blocks keeps its value |
| Fragments.StoreRowWritten | BinaryMatMul/src/BinaryMatMul.c:276-278 | after storing fragments `start ..` into the first count blocks of a block row, word i of block bc holds word `(start+bc)*32+i` of src |
| Fragments.StoreRowKept | BinaryMatMul/src/BinaryMatMul.c:276-278 | the inner store loop leaves every word outside its blocks unchanged |
| Fragments.StoreAllWritten | BinaryMatMul/src/BinaryMatMul.c:271-280 | after the first rows block rows are stored, word i of block (br, bc) holds word `(br*(N/32)+bc)*32+i` of src, whatever later blocks are written |
| Fragments.StoreAllKept | BinaryMatMul/src/BinaryMatMul.c:271-280 | a matrix word that is no word of the first rows block rows keeps its value |
| Fragments.StoreAllBlocks | BinaryMatMul/include/BinaryMatMul.h:293-303 | storing an arbitrary fragment array puts fragment `br*(N/32)+bc` into block (br, bc), word for word |
| Fragments.StoreAllOutside | BinaryMatMul/include/BinaryMatMul.h:293-303 | storing a fragment array changes no word outside the M/32 x N/32 blocks |
| Fragments.BatchLoadAfterStore | BinaryMatMul/src/BinaryMatMul.c:260-280 | loadBinaryMatrixToFragments after storeFramentsToBinaryMatrix returns the first `(M/32)*(N/32)*32` words of the stored src |
| Fragments.SlotOf | BinaryMatMul/src/BinaryMatMul.c:260-280 | every word index below `rows*cols*32` is word i of fragment `br*cols + bc` for one br < rows, bc < cols, i < 32 |
| Fragments.LoadedChunk | BinaryMatMul/src/BinaryMatMul.c:260-269 | slot `br*(N/32) + bc` of the loaded array is exactly block (br, bc) |
| Fragments.StoreRowLoaded | BinaryMatMul/src/BinaryMatMul.c:276-278 | storing back the loaded fragments of a block row leaves the matrix unchanged |
| Fragments.StoreAllLoaded | BinaryMatMul/src/BinaryMatMul.c:275-279 | storing back the loaded fragments of the first block rows leaves the matrix unchanged |
| Fragments.BatchStoreAfterLoad | BinaryMatMul/src/BinaryMatMul.c:260-280 | storeFramentsToBinaryMatrix after loadBinaryMatrixToFragments restores the matrix |
| Fragments.BitPlace | BinaryMatMul/src/BinaryMatMul.c:109-114 | when n is a multiple of 32, getBit's bit index of (blockRow*32+i, blockCol*32+t) lies in word `(blockRow*32+i)*(n/32) + blockCol` at column t |
| Fragments.MatrixFragmentFits | BinaryMatMul/src/BinaryMatMul.c:107-115 | every block of a matrix whose bits fit its buffer can be loaded |
| Fragments.FragmentBit | BinaryMatMul/src/BinaryMatMul.c:107-117 | bit (row, t) of a loaded fragment equals getBit(mat, blockRow*32+row, blockCol*32+t, n) |
| Fragments.WordIndexDistinct | BinaryMatMul/src/BinaryMatMul.c:109-114 | different fragment rows of different blocks address different matrix words |
| Fragments.StoreSetsBit | BinaryMatMul/src/BinaryMatMul.c:119-128 | after storeFragment, getBit inside the block returns the stored fragment's bit |
| Fragments.StoreKeepsBit | BinaryMatMul/src/BinaryMatMul.c:119-128 | storeFragment leaves getBit outside the block unchanged |
| Matmul.CountSplit | BinaryMatMul/src/BinaryMatMul.c:159-164 | counting the dot-product columns of one reduction step adds the equal bits of the two fragment words |
| Matmul.AgreeStep | BinaryMatMul/src/BinaryMatMul.c:160-163 | column t of `a_frag[row]` against `b_transposed[col]` compares bit (r, i*32+t) of A with bit (i*32+t, c) of B |
| Matmul.AgreeColumns | BinaryMatMul/src/BinaryMatMul.c:160-163 | the same for all 32 columns of reduction step i |
| Matmul.AddCount | BinaryMatMul/src/BinaryMatMul.c:85 | the accumulator addition does not wrap while the count stays below n <= 2^31 |
| Matmul.AccumulateStep | BinaryMatMul/src/BinaryMatMul.c:85 | adding binaryMul of the two words to the count of the first i*32 columns gives the count of the first i*32+32 |
| Matmul.AccumulateCell | BinaryMatMul/src/BinaryMatMul.c:159-164 | after reduction step i, cell (row, col) of the accumulator counts the first i*32+32 columns of its dot product |
| Matmul.ColumnsFitInt | BinaryMatMul/src/BinaryMatMul.c:148 | a non-empty operand whose bits fit an `int` index has n <= 2^31 |
| Matmul.NextFragment | BinaryMatMul/src/BinaryMatMul.c:159 | reduction step i < n/32 reads columns below n |
| Matmul.FinishedStep | BinaryMatMul/src/BinaryMatMul.c:157-166 | one more block of a block row finishes exactly that block's entries |
| Matmul.FinishedRow | BinaryMatMul/src/BinaryMatMul.c:156-167 | completing all k/32 blocks of a block row is the same as starting the next block row |
| Matmul.FinishedAll | BinaryMatMul/src/BinaryMatMul.c:156 | after all m/32 block rows, the finished entries are exactly the m*k entries of the result |
| Matmul.ProductEntry | BinaryMatMul/src/BinaryMatMul.c:148-168 | a finished entry `r*k + c` holds the agreement count of cell (r, c) |
| Matmul.ProductFromFinished | BinaryMatMul/src/BinaryMatMul.c:148-168 | the final loop state is the product, with the entries past m*k unchanged |
| Matmul.StoreBlockStep | BinaryMatMul/src/BinaryMatMul.c:165 | storeAcc of a finished accumulator finishes exactly the entries of its block |
| Matmul.AccumulateFragments | BinaryMatMul/src/BinaryMatMul.c:160-163 | one load/load/transpose/accumulate step adds reduction step i to every accumulator cell |
| Matmul.AccumulateBlock | BinaryMatMul/src/BinaryMatMul.c:158-164 | after fillAccWithZero and the reduction loop, cell (row, col) holds the full count for its result cell |
| Matmul.MultiplyBlock | BinaryMatMul/src/BinaryMatMul.c:157-166 | one output block is computed and stored; all other entries keep their progress |
| Matmul.MultiplyBlockRow | BinaryMatMul/src/BinaryMatMul.c:156-167 | one block row of output blocks is computed and stored |
| Matmul.ProgressStart | BinaryMatMul/src/BinaryMatMul.c:156 | before the loops no entry is finished |
| Matmul.ProgressRow | BinaryMatMul/src/BinaryMatMul.c:156-157 | the end of one block row is the start of the next |
| Matmul.BinaryMatrixMul | BinaryMatMul/src/BinaryMatMul.c:148-168 | `result[r*k + c]` is the number of t < n with getBit(a, r, t, n) == getBit(b, t, c, k), and entries past m*k are unchanged |
| FastMatmul.FragmentWordsBelow | BinaryMatMul/src/BinaryMatMul.c:188 | the words a result fragment is stored to lie below bit m*k |
| FastMatmul.SignStoreStep | BinaryMatMul/src/BinaryMatMul.c:188 | storing a thresholded fragment finishes the bits of its block and keeps all others |
| FastMatmul.FastAccumulateFragments | BinaryMatMul/src/BinaryMatMul.c:183-186 | one reduction step updates the accumulator; on the last step c_frag bit (row, col) is set iff the finished count exceeds signCmp; otherwise c_frag is unchanged |
| FastMatmul.FastAccumulateBlock | BinaryMatMul/src/BinaryMatMul.c:181-187 | after the reduction loop (n >= 32), c_frag holds the thresholded counts of its output block |
| FastMatmul.FastMultiplyBlock | BinaryMatMul/src/BinaryMatMul.c:180-189 | one output block is thresholded and stored into c |
| FastMatmul.FastMultiplyBlockRow | BinaryMatMul/src/BinaryMatMul.c:179-190 | one block row of output blocks is thresholded and stored |
| FastMatmul.FastBinaryMatrixMul | BinaryMatMul/src/BinaryMatMul.c:170-191 | bit (r, c) of c is set iff the count of cell (r, c) exceeds signCmp; words past bit m*k are unchanged |
| FastMatmul.SetBitBelow | BinaryMatMul/src/BinaryMatMul.c:196 | setBit of a cell of an m x n matrix leaves every bit past bit m*n unchanged, including the rest of a partly used word |
| FastMatmul.BinarizeStep | BinaryMatMul/src/BinaryMatMul.c:194-198 | one setBit of binarizeMatrix writes cell (i, j) and keeps the cells already written |
| FastMatmul.BinarizedRow | BinaryMatMul/src/BinaryMatMul.c:194-195 | finishing row i is starting row i + 1 |
| FastMatmul.BinarizeMatrix | BinaryMatMul/src/BinaryMatMul.c:193-199 | bit (i, j) of bMat is set iff `mat[i*n + j] > signCmp`; every bit past bit m*n is unchanged, also inside the last, partly used word |
| FastMatmul.FastMatchesBinarize | BinaryMatMul/src/BinaryMatMul.c:170-199 | fastBinaryMatrixMul agrees bit for bit with binarizeMatrix applied to the binaryMatrixMul result |
| Btpu.MaskIsFieldBit | BinaryMatMul/include/BinaryMatMul.h:26-32 | each mask constant is `1 << position` of its bitfield (START bit 0 .. ERROR bit 6) |
| Btpu.Set | BinaryMatMul/include/BinaryMatMul.h:42-51 | writing one bitfield sets it and keeps every other field and the reserved bits |
| Btpu.RawFromRaw | BinaryMatMul/include/BinaryMatMul.h:53-56 | the raw view of the bitfield view of a value is the value itself |
| Btpu.FromRawRaw | BinaryMatMul/include/BinaryMatMul.h:53-56 | the bitfield view of the raw view of the fields is the fields themselves |
| Btpu.RawReserved | BinaryMatMul/include/BinaryMatMul.h:50 | bits 7..31 of the raw value are the reserved field |
| Btpu.RawStart | BinaryMatMul/include/BinaryMatMul.h:43 | bit 0 of the raw value is START |
| Btpu.RawBusy | BinaryMatMul/include/BinaryMatMul.h:44 | bit 1 of the raw value is BUSY |
| Btpu.RawOmemSel | BinaryMatMul/include/BinaryMatMul.h:45 | bit 2 of the raw value is OMEM_SEL |
| Btpu.RawBramPortSel | BinaryMatMul/include/BinaryMatMul.h:46 | bit 3 of the raw value is BRAM_PORT_SEL |
| Btpu.RawAccClear | BinaryMatMul/include/BinaryMatMul.h:47 | bit 4 of the raw value is ACC_CLEAR |
| Btpu.RawBatchedMul | BinaryMatMul/include/BinaryMatMul.h:48 | bit 5 of the raw value is BATCHED_MUL |
| Btpu.RawError | BinaryMatMul/include/BinaryMatMul.h:49 | bit 6 of the raw value is ERROR |
| Btpu.MaskReadsField | BinaryMatMul/include/BinaryMatMul.h:26-56 | testing a raw value against a field's mask reads that bitfield |
| Btpu.ReadFieldShifted | BinaryMatMul/include/BinaryMatMul.h:42-56 | reading a field from a raw value is `(value >> pos) & 1` |
| Btpu.MaskWritesField | BinaryMatMul/include/BinaryMatMul.h:26-56 | setting or clearing a mask in the raw value writes exactly that bitfield |
| Btpu.WriteFieldRaw | BinaryMatMul/include/BinaryMatMul.h:42-56 | a bitfield write changes the raw value only in that field's bit |
| Btpu.StartedRaw | BinaryMatMul/src/BinaryMatMul.c:309-313 | the bitfield writes of btpuStartBinaryMatrixMul are the corresponding mask writes on the raw control word |
| Btpu.BtpuRegFile.constructor | BinaryMatMul/include/BinaryMatMul.h:58-68 | the register file is the nine slots creg, wMemStartAddr, iMemStartAddr, oMemStartAddr, mSize, nSize, kSize, statusReg, signCmp in order |
| Btpu.BtpuRegFile.SetBlocks | BinaryMatMul/src/BinaryMatMul.c:282-297 | the stores to byte offsets 16, 20 and 24 set exactly mSize, nSize and kSize |
| Btpu.BtpuRegFile.SetAddrs | BinaryMatMul/src/BinaryMatMul.c:299-303 | exactly the three address registers are set |
| Btpu.BtpuRegFile.StartBinaryMatrixMul | BinaryMatMul/src/BinaryMatMul.c:305-316 | returns false and writes nothing while BUSY or ERROR is set; otherwise sets BATCHED_MUL, OMEM_SEL = outputMemorySelect mod 2, signCmp, ACC_CLEAR and START, keeps every other field and register, and returns true |
| Btpu.BtpuRegFile.WaitBinaryMatrixMul | BinaryMatMul/src/BinaryMatMul.c:319-324 | once BUSY is clear, returns true iff the ERROR bit of the control word is clear |

## Left out

- The `printf` helpers (`printIntBMatrixN`, `printBMatrixN`, `printIntFragmentN`, `printIntMatrixN`) are not modelled: they only write to the console.
- The profiling globals `transposeTime` and `computeTime` and the `get_absolute_time` calls are not modelled: they are timing side effects and do not affect any result.
- The fixed MMIO base addresses and the memory-region pointers are not modelled: they are hardware mapping. The register file is an ordinary object.
- The `sw` instructions of `btpuSetBlocks` are modelled as the three field writes they perform on the struct layout.
- `btpuWaitBinaryMatrixMulWithCb` is not modelled: its callback is a foreign function pointer, and its loop only ends when hardware concurrently clears BUSY.
- The BTPU hardware is not modelled: what sets BUSY and ERROR, and what the coprocessor computes. BUSY and ERROR are plain fields, set by whoever constructs or updates the register file.
- `main.c` is not part of this model: it holds board set-up (LEDs, clocks) and a demo loop.
- The hardware word size is not modelled apart from explicit arithmetic. Integers are unbounded; `uint32_t` accumulator arithmetic is modelled explicitly as addition modulo 2^32 (`Add32`), and `signCmp` comparisons are unsigned.
- Btpu.BtpuRegFile.WaitBinaryMatrixMul: requires BUSY to be clear and models only the rule after the loop (`return !ERROR`). The busy-wait loop depends on volatile hardware state.
- Btpu.BtpuRegFile.StartBinaryMatrixMul: the `uint8_t outputMemorySelect` is a `nat` below 256. The one-bit OMEM_SEL field keeps its low bit.
- Transpose.TransposeBinaryMatrix: the contract is stated for M <= N only. With the output row width N that the code uses, a larger M makes later writes land on bits written earlier, and the result is no transpose. The frame is stated per cell (r, c) with c < N whose index fits an `int`, so it does not speak about bits beyond the `int` range, which getBit cannot address.
- BitMatrix.SetBit: the requires demands that `row * N + col` be a non-negative `int` and inside the buffer. The C code computes the index as an `int` and does not check it.
- Matmul.BinaryMatrixMul: requires `m * k` to fit an `int`, which storeAcc's index demands, and requires operands whose bits fit their buffers, with m, n and k multiples of 32.
- FastMatmul.FastBinaryMatrixMul: requires n >= 32. For n < 32 the reduction loop never runs and the C code stores the uninitialised stack fragment `c_frag`.
- The scratch fragments and the accumulator, which the C code keeps on the stack, are arrays allocated by the product methods.
- The fragment array `BinaryFragment_t dest[]` of the batch converters is one flat word array: fragment f occupies words `f*32 .. f*32+31`.
- The requires demand that ranges of storage that are distinct in every use of the library do not alias. Aliased buffers are not modelled.
