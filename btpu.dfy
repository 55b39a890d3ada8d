/**
 * The BTPU register-file driver.  The control register BTPUCReg_t is a union
 * of a raw 32-bit value and the bitfield struct BTPUCRegField_t: seven
 * one-bit fields at bits 0..6 (START, BUSY, OMEM_SEL, BRAM_PORT_SEL,
 * ACC_CLEAR, BATCHED_MUL, ERROR) and 25 reserved bits above them.  The
 * register file BTPURegFile_t is nine consecutive 32-bit slots.  BUSY and
 * ERROR belong to the hardware: the driver only reads them.
 */
module Btpu {

  /** The 25 reserved bits 7..31, as a value below 2^25. */
  type Reserved = r: bv32 | r < 0x200_0000

  /** BTPUCRegField_t: the bitfield view of the control register. */
  datatype CRegFields = CRegFields(start: bool, busy: bool, omemSel: bool, bramPortSel: bool,
                                   accClear: bool, batchedMul: bool, error: bool, reserved: Reserved)

  /** The names of the seven one-bit fields, in bit order. */
  datatype CRegField = START | BUSY | OMEM_SEL | BRAM_PORT_SEL | ACC_CLEAR | BATCHED_MUL | ERROR

  /** The bit position of each field (bit 0 is the least significant). */
  function Pos(f: CRegField): bv5
  {
    match f
    case START => 0
    case BUSY => 1
    case OMEM_SEL => 2
    case BRAM_PORT_SEL => 3
    case ACC_CLEAR => 4
    case BATCHED_MUL => 5
    case ERROR => 6
  }

  const START_BIT_MASK: bv32 := 1 << 0
  const BUSY_BIT_MASK: bv32 := 1 << 1
  const OMEM_SEL_BIT_MASK: bv32 := 1 << 2
  const BRAM_PORT_SEL_BIT_MASK: bv32 := 1 << 3
  const ACC_CLEAR_BIT_MASK: bv32 := 1 << 4
  const BATCHED_MUL_BIT_MASK: bv32 := 1 << 5
  const ERROR_BIT_MASK: bv32 := 1 << 6

  /** The mask constant of each field. */
  function Mask(f: CRegField): bv32
  {
    match f
    case START => START_BIT_MASK
    case BUSY => BUSY_BIT_MASK
    case OMEM_SEL => OMEM_SEL_BIT_MASK
    case BRAM_PORT_SEL => BRAM_PORT_SEL_BIT_MASK
    case ACC_CLEAR => ACC_CLEAR_BIT_MASK
    case BATCHED_MUL => BATCHED_MUL_BIT_MASK
    case ERROR => ERROR_BIT_MASK
  }

  /** Each mask is 1 shifted to its field's bit position. */
  lemma MaskIsFieldBit(f: CRegField)
    ensures Mask(f) == 1 << Pos(f)
  {
    match f
    case START =>
    case BUSY =>
    case OMEM_SEL =>
    case BRAM_PORT_SEL =>
    case ACC_CLEAR =>
    case BATCHED_MUL =>
    case ERROR =>
  }

  /** Reading field f through the bitfield view (`creg.reg.F`). */
  function Get(c: CRegFields, f: CRegField): bool
  {
    match f
    case START => c.start
    case BUSY => c.busy
    case OMEM_SEL => c.omemSel
    case BRAM_PORT_SEL => c.bramPortSel
    case ACC_CLEAR => c.accClear
    case BATCHED_MUL => c.batchedMul
    case ERROR => c.error
  }

  /** Writing field f through the bitfield view (`creg.reg.F = b`). */
  function Set(c: CRegFields, f: CRegField, b: bool): (r: CRegFields)
    ensures Get(r, f) == b
    ensures forall g :: g != f ==> Get(r, g) == Get(c, g)
    ensures r.reserved == c.reserved
  {
    match f
    case START => c.(start := b)
    case BUSY => c.(busy := b)
    case OMEM_SEL => c.(omemSel := b)
    case BRAM_PORT_SEL => c.(bramPortSel := b)
    case ACC_CLEAR => c.(accClear := b)
    case BATCHED_MUL => c.(batchedMul := b)
    case ERROR => c.(error := b)
  }

  function Flag(b: bool, m: bv32): bv32
  {
    if b then m else 0
  }

  /** Bits 0..6 of the raw value. */
  function Flags(c: CRegFields): bv32
  {
    Flag(c.start, 1) | Flag(c.busy, 2) | Flag(c.omemSel, 4) | Flag(c.bramPortSel, 8)
      | Flag(c.accClear, 16) | Flag(c.batchedMul, 32) | Flag(c.error, 64)
  }

  /** The raw view (`creg.value`) of a bitfield value. */
  function Raw(c: CRegFields): bv32
  {
    Flags(c) | (c.reserved << 7)
  }

  /** The bitfield view of a raw value. */
  function FromRaw(v: bv32): CRegFields
  {
    CRegFields(v & 1 != 0, v & 2 != 0, v & 4 != 0, v & 8 != 0, v & 16 != 0, v & 32 != 0, v & 64 != 0, v >> 7)
  }

  /** Every raw value is the raw view of its bitfield view. */
  lemma RawFromRaw(v: bv32)
    ensures Raw(FromRaw(v)) == v
  {
  }

  lemma FlagsLow(c: CRegFields)
    ensures Flags(c) < 128
  {
  }

  lemma SplitHigh(x: bv32, r: bv32)
    requires x < 128 && r < 0x200_0000
    ensures (x | (r << 7)) >> 7 == r
  {
  }

  lemma RawReserved(c: CRegFields)
    ensures Raw(c) >> 7 == c.reserved
  {
    FlagsLow(c);
    SplitHigh(Flags(c), c.reserved);
  }

  lemma RawStart(c: CRegFields) ensures (Raw(c) & 1 != 0) == c.start {}
  lemma RawBusy(c: CRegFields) ensures (Raw(c) & 2 != 0) == c.busy {}
  lemma RawOmemSel(c: CRegFields) ensures (Raw(c) & 4 != 0) == c.omemSel {}
  lemma RawBramPortSel(c: CRegFields) ensures (Raw(c) & 8 != 0) == c.bramPortSel {}
  lemma RawAccClear(c: CRegFields) ensures (Raw(c) & 16 != 0) == c.accClear {}
  lemma RawBatchedMul(c: CRegFields) ensures (Raw(c) & 32 != 0) == c.batchedMul {}
  lemma RawError(c: CRegFields) ensures (Raw(c) & 64 != 0) == c.error {}

  /** Every bitfield value is the bitfield view of its raw view: the two views of the union agree. */
  lemma FromRawRaw(c: CRegFields)
    ensures FromRaw(Raw(c)) == c
  {
    RawStart(c);
    RawBusy(c);
    RawOmemSel(c);
    RawBramPortSel(c);
    RawAccClear(c);
    RawBatchedMul(c);
    RawError(c);
    RawReserved(c);
  }

  /** The header's mask of field f reads the same bit as the bitfield view. */
  lemma MaskReadsField(c: CRegField, v: bv32)
    ensures (v & Mask(c) != 0) == Get(FromRaw(v), c)
  {
    match c
    case START =>
    case BUSY =>
    case OMEM_SEL =>
    case BRAM_PORT_SEL =>
    case ACC_CLEAR =>
    case BATCHED_MUL =>
    case ERROR =>
  }

  /** Reading a field of a raw value is `(value >> pos) & 1`. */
  lemma ReadFieldShifted(v: bv32, f: CRegField)
    ensures Get(FromRaw(v), f) == ((v >> Pos(f)) & 1 == 1)
  {
    match f
    case START =>
    case BUSY =>
    case OMEM_SEL =>
    case BRAM_PORT_SEL =>
    case ACC_CLEAR =>
    case BATCHED_MUL =>
    case ERROR =>
  }

  /** The raw value after setting or clearing one mask bit. */
  function WithMask(v: bv32, m: bv32, b: bool): bv32
  {
    if b then v | m else v & !m
  }

  lemma WriteStart(v: bv32, b: bool)
    ensures FromRaw(WithMask(v, 1, b)) == FromRaw(v).(start := b)
  {
    if b {
      SetStart(v);
    } else {
      ClearStart(v);
    }
  }

  lemma SetStart(v: bv32)
    ensures FromRaw(v | 1) == FromRaw(v).(start := true)
  {
  }

  lemma ClearStart(v: bv32)
    ensures FromRaw(v & !1) == FromRaw(v).(start := false)
  {
  }

  lemma WriteBusy(v: bv32, b: bool)
    ensures FromRaw(WithMask(v, 2, b)) == FromRaw(v).(busy := b)
  {
    if b {
      SetBusy(v);
    } else {
      ClearBusy(v);
    }
  }

  lemma SetBusy(v: bv32)
    ensures FromRaw(v | 2) == FromRaw(v).(busy := true)
  {
  }

  lemma ClearBusy(v: bv32)
    ensures FromRaw(v & !2) == FromRaw(v).(busy := false)
  {
  }

  lemma WriteOmemSel(v: bv32, b: bool)
    ensures FromRaw(WithMask(v, 4, b)) == FromRaw(v).(omemSel := b)
  {
    if b {
      SetOmemSel(v);
    } else {
      ClearOmemSel(v);
    }
  }

  lemma SetOmemSel(v: bv32)
    ensures FromRaw(v | 4) == FromRaw(v).(omemSel := true)
  {
  }

  lemma ClearOmemSel(v: bv32)
    ensures FromRaw(v & !4) == FromRaw(v).(omemSel := false)
  {
  }

  lemma WriteBramPortSel(v: bv32, b: bool)
    ensures FromRaw(WithMask(v, 8, b)) == FromRaw(v).(bramPortSel := b)
  {
    if b {
      SetBramPortSel(v);
    } else {
      ClearBramPortSel(v);
    }
  }

  lemma SetBramPortSel(v: bv32)
    ensures FromRaw(v | 8) == FromRaw(v).(bramPortSel := true)
  {
  }

  lemma ClearBramPortSel(v: bv32)
    ensures FromRaw(v & !8) == FromRaw(v).(bramPortSel := false)
  {
  }

  lemma WriteAccClear(v: bv32, b: bool)
    ensures FromRaw(WithMask(v, 16, b)) == FromRaw(v).(accClear := b)
  {
    if b {
      SetAccClear(v);
    } else {
      ClearAccClear(v);
    }
  }

  lemma SetAccClear(v: bv32)
    ensures FromRaw(v | 16) == FromRaw(v).(accClear := true)
  {
  }

  lemma ClearAccClear(v: bv32)
    ensures FromRaw(v & !16) == FromRaw(v).(accClear := false)
  {
  }

  lemma WriteBatchedMul(v: bv32, b: bool)
    ensures FromRaw(WithMask(v, 32, b)) == FromRaw(v).(batchedMul := b)
  {
    if b {
      SetBatchedMul(v);
    } else {
      ClearBatchedMul(v);
    }
  }

  lemma SetBatchedMul(v: bv32)
    ensures FromRaw(v | 32) == FromRaw(v).(batchedMul := true)
  {
  }

  lemma ClearBatchedMul(v: bv32)
    ensures FromRaw(v & !32) == FromRaw(v).(batchedMul := false)
  {
  }

  lemma WriteError(v: bv32, b: bool)
    ensures FromRaw(WithMask(v, 64, b)) == FromRaw(v).(error := b)
  {
    if b {
      SetError(v);
    } else {
      ClearError(v);
    }
  }

  lemma SetError(v: bv32)
    ensures FromRaw(v | 64) == FromRaw(v).(error := true)
  {
  }

  lemma ClearError(v: bv32)
    ensures FromRaw(v & !64) == FromRaw(v).(error := false)
  {
  }

  /** Setting or clearing the mask bit of field f of a raw value writes that field of its bitfield view. */
  lemma MaskWritesField(v: bv32, f: CRegField, b: bool)
    ensures FromRaw(WithMask(v, Mask(f), b)) == Set(FromRaw(v), f, b)
  {
    match f
    case START => WriteStart(v, b);
    case BUSY => WriteBusy(v, b);
    case OMEM_SEL => WriteOmemSel(v, b);
    case BRAM_PORT_SEL => WriteBramPortSel(v, b);
    case ACC_CLEAR => WriteAccClear(v, b);
    case BATCHED_MUL => WriteBatchedMul(v, b);
    case ERROR => WriteError(v, b);
  }

  /**
   * Writing a field through the bitfield view sets or clears exactly that
   * field's mask bit of the raw value and leaves the other 31 bits alone.
   */
  lemma WriteFieldRaw(c: CRegFields, f: CRegField, b: bool)
    ensures Raw(Set(c, f, b)) == WithMask(Raw(c), Mask(f), b)
  {
    MaskWritesField(Raw(c), f, b);
    FromRawRaw(c);
    RawFromRaw(WithMask(Raw(c), Mask(f), b));
  }

  /** The control value after a successful start: the four fields btpuStartBinaryMatrixMul writes. */
  function Started(c: CRegFields, isBatched: bool, clearAcc: bool, omem: bool): CRegFields
  {
    Set(Set(Set(Set(c, BATCHED_MUL, isBatched), OMEM_SEL, omem), ACC_CLEAR, clearAcc), START, true)
  }

  /**
   * The raw control value after a successful start is the one four
   * read-modify-writes through the header's masks give, in the order
   * btpuStartBinaryMatrixMul writes the fields.
   */
  lemma StartedRaw(c: CRegFields, isBatched: bool, clearAcc: bool, omem: bool)
    ensures Raw(Started(c, isBatched, clearAcc, omem)) ==
      WithMask(WithMask(WithMask(WithMask(Raw(c), BATCHED_MUL_BIT_MASK, isBatched), OMEM_SEL_BIT_MASK, omem),
                        ACC_CLEAR_BIT_MASK, clearAcc), START_BIT_MASK, true)
  {
    var c1 := Set(c, BATCHED_MUL, isBatched);
    var c2 := Set(c1, OMEM_SEL, omem);
    var c3 := Set(c2, ACC_CLEAR, clearAcc);
    WriteFieldRaw(c, BATCHED_MUL, isBatched);
    WriteFieldRaw(c1, OMEM_SEL, omem);
    WriteFieldRaw(c2, ACC_CLEAR, clearAcc);
    WriteFieldRaw(c3, START, true);
  }

  /** The register file at the BTPU's control base address. */
  class BtpuRegFile {
    var creg: CRegFields
    var wMemStartAddr: bv32
    var iMemStartAddr: bv32
    var oMemStartAddr: bv32
    var mSize: bv32
    var nSize: bv32
    var kSize: bv32
    var statusReg: bv32
    var signCmp: bv32

    constructor (creg: bv32, wMemStartAddr: bv32, iMemStartAddr: bv32, oMemStartAddr: bv32,
                 mSize: bv32, nSize: bv32, kSize: bv32, statusReg: bv32, signCmp: bv32)
      ensures Slots() == [creg, wMemStartAddr, iMemStartAddr, oMemStartAddr, mSize, nSize, kSize, statusReg, signCmp]
    {
      RawFromRaw(creg);
      this.creg := FromRaw(creg);
      this.wMemStartAddr := wMemStartAddr;
      this.iMemStartAddr := iMemStartAddr;
      this.oMemStartAddr := oMemStartAddr;
      this.mSize := mSize;
      this.nSize := nSize;
      this.kSize := kSize;
      this.statusReg := statusReg;
      this.signCmp := signCmp;
    }

    /** The nine 32-bit slots in memory order: slot i lies at byte offset 4 * i. */
    function Slots(): seq<bv32>
      reads this
    {
      [Raw(creg), wMemStartAddr, iMemStartAddr, oMemStartAddr, mSize, nSize, kSize, statusReg, signCmp]
    }

    /**
     * btpuSetBlocks: its three 32-bit stores go to byte offsets 16, 20 and 24
     * of the register file, which are slots 4, 5 and 6: mSize, nSize and kSize.
     */
    method SetBlocks(m: bv32, n: bv32, k: bv32)
      modifies this
      ensures creg == old(creg)
      ensures Slots() == old(Slots())[16 / 4 := m][20 / 4 := n][24 / 4 := k]
    {
      mSize := m;
      nSize := n;
      kSize := k;
    }

    /** btpuSetAddrs: the three memory start addresses, and nothing else. */
    method SetAddrs(wMemStartAddr: bv32, iMemStartAddr: bv32, oMemStartAddr: bv32)
      modifies this
      ensures creg == old(creg)
      ensures Slots() == old(Slots())[1 := wMemStartAddr][2 := iMemStartAddr][3 := oMemStartAddr]
    {
      this.wMemStartAddr := wMemStartAddr;
      this.iMemStartAddr := iMemStartAddr;
      this.oMemStartAddr := oMemStartAddr;
    }

    /**
     * btpuStartBinaryMatrixMul: refused (false, nothing written) while BUSY or
     * ERROR is set; otherwise BATCHED_MUL, OMEM_SEL (the low bit of the 8-bit
     * outputMemorySelect, as the one-bit field keeps it), signCmp, ACC_CLEAR
     * and START = 1 are written and the call returns true.  BUSY,
     * BRAM_PORT_SEL, ERROR, the reserved bits and the other registers keep
     * their values.
     */
    method StartBinaryMatrixMul(signCmp: bv32, isBatched: bool, clearAcc: bool, outputMemorySelect: nat) returns (started: bool)
      requires outputMemorySelect < 256
      modifies this
      ensures started == !(old(creg).busy || old(creg).error)
      ensures !started ==> Slots() == old(Slots()) && creg == old(creg)
      ensures started ==> creg.start && creg.batchedMul == isBatched && creg.accClear == clearAcc
      ensures started ==> creg.omemSel == (outputMemorySelect % 2 == 1)
      ensures started ==> creg.busy == old(creg).busy && creg.bramPortSel == old(creg).bramPortSel
      ensures started ==> creg.error == old(creg).error && creg.reserved == old(creg).reserved
      ensures started ==> Slots() == old(Slots())[0 := Raw(creg)][8 := signCmp]
      ensures started ==> creg == Started(old(creg), isBatched, clearAcc, outputMemorySelect % 2 == 1)
    {
      if creg.busy || creg.error {
        return false;
      }
      creg := creg.(batchedMul := isBatched);
      creg := creg.(omemSel := outputMemorySelect % 2 == 1);
      this.signCmp := signCmp;
      creg := creg.(accClear := clearAcc);
      creg := creg.(start := true);
      return true;
    }

    /**
     * The result rule of btpuWaitBinaryMatrixMul: once the hardware has
     * cleared BUSY, the call reports success exactly when the ERROR bit of
     * the raw control value is clear.
     */
    method WaitBinaryMatrixMul() returns (ok: bool)
      requires !creg.busy
      ensures ok == (Raw(creg) & ERROR_BIT_MASK == 0)
    {
      FromRawRaw(creg);
      MaskReadsField(ERROR, Raw(creg));
      ok := !creg.error;
    }
  }
}
