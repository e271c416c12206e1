/**
 RV32IM itself, as a relation between machine states: addresses, comparisons, products and
 quotients are integers, and the memory holds little-endian bytes. The pipeline's circuits step
 within it, so the pipeline runs it.
 */
module Rv32Isa {
  import opened Arith
  import opened Isa
  import opened Words
  import opened Rv32
  import Alu
  import ByteMemory
  import IntegerDivider
  import Multiplier
  import Pipeline

  // ---------------------------------------------------------------------------------------
  // The instruction set (unprivileged ISA 20191213, sections 2.4 to 2.6, 7.1 and 7.2)
  // ---------------------------------------------------------------------------------------

  /** What a source register holds; x0 is always zero. */
  function Source(a: Arch, id: RegId): Word { if id == 0 then 0 else a.regs[id] }

  function Sum(a: Word, b: Word): (n: nat)
    ensures n < 0x1_0000_0000
  {
    (Nat(a) + Nat(b)) % 0x1_0000_0000
  }

  /** The address of the instruction behind this one. */
  function Following(i: Instr, pc: Word): int {
    (Number(pc) + (if i.isRV32C then 2 else 4)) % 0x1_0000_0000
  }

  /** BEQ, BNE, BLT, BGE, BLTU and BGEU. */
  predicate Condition(funct3: bv3, x: int, y: int) {
    match funct3
    case 0 => x == y
    case 1 => x != y
    case 4 => Alu.TwosComplement(x) < Alu.TwosComplement(y)
    case 5 => Alu.TwosComplement(x) >= Alu.TwosComplement(y)
    case 6 => x < y
    case 7 => x >= y
    case _ => false
  }

  predicate IsNextPC(i: Instr, pc: Word, x: Word, y: Word, next: Word) {
    match i.kind
    case JAL => Number(next) == Sum(pc, i.Jimm)
    case JALR => Number(next) == Sum(x, i.Iimm) / 2 * 2
    case Branch => Number(next) == if Condition(i.funct3, Number(x), Number(y)) then Sum(pc, i.Bimm) else Following(i, pc)
    case EBREAK => next == pc
    case _ => Number(next) == Following(i, pc)
  }

  /** MUL, MULH, MULHSU and MULHU; then DIV, DIVU, REM and REMU. */
  ghost predicate IsMulDiv(funct3: bv3, x: Multiplier.Unsigned, y: Multiplier.Unsigned, r: nat) {
    match funct3
    case 0 => Multiplier.IsProduct(Multiplier.MUL, x, y, r)
    case 1 => Multiplier.IsProduct(Multiplier.MULH, x, y, r)
    case 2 => Multiplier.IsProduct(Multiplier.MULHSU, x, y, r)
    case 3 => Multiplier.IsProduct(Multiplier.MULHU, x, y, r)
    case 4 => IntegerDivider.Required(32, IntegerDivider.Op(false, false), x, y, r)
    case 5 => IntegerDivider.Required(32, IntegerDivider.Op(true, false), x, y, r)
    case 6 => IntegerDivider.Required(32, IntegerDivider.Op(false, true), x, y, r)
    case _ => IntegerDivider.Required(32, IntegerDivider.Op(true, true), x, y, r)
  }

  function Place(k: nat): int {
    match k case 0 => 1 case 1 => 0x100 case 2 => 0x1_0000 case _ => 0x100_0000
  }

  /** A byte of a number. */
  function ByteOf(n: int, k: nat): int { n / Place(k) % 0x100 }

  /** The byte of memory at x. */
  function Byte(mem: Mem, x: nat): int {
    ByteOf(if x / 4 in mem then Number(mem[x / 4]) else 0, x % 4)
  }

  function Half(mem: Mem, x: nat): int { Byte(mem, x) + 0x100 * Byte(mem, x + 1) }

  /** Sign extension to 32 bits of a number below twice `half`. */
  function Extended(n: int, half: int): int {
    if n < half then n else n - 2 * half + 0x1_0000_0000
  }

  /** LB, LH, LBU, LHU and LW. */
  predicate IsLoaded(funct3: bv3, mem: Mem, x: nat, r: int) {
    match funct3
    case 0 => r == Extended(Byte(mem, x), 0x80)
    case 1 => r == Extended(Half(mem, x), 0x8000)
    case 4 => r == Byte(mem, x)
    case 5 => r == Half(mem, x)
    case _ => r == Half(mem, x) + 0x1_0000 * Half(mem, x + 2)
  }

  /** How many bytes SB, SH and SW store. */
  function Width(funct3: bv3): nat {
    match funct3
    case 0 | 4 => 1
    case 1 | 5 => 2
    case _ => 4
  }

  /** Devices answer where bit 22 of the address is set. */
  predicate IsDevice(x: nat) { x / 0x40_0000 % 2 == 1 }

  /** What the instruction at a.pc leaves in rd. */
  ghost predicate IsValue(p: Program, a: Arch, r: Word) {
    var i := p.fetch(a.pc);
    var x, y := Source(a, i.rs1), Source(a, i.rs2);
    match i.kind
    case LUI => r == i.Uimm
    case AUIPC => Number(r) == Sum(a.pc, i.Uimm)
    case JAL | JALR => Number(r) == Following(i, a.pc)
    case Load =>
      var addr := Sum(x, i.Iimm);
      if IsDevice(addr) then r == p.io(FromNumber(addr)) else IsLoaded(i.funct3, a.mem, addr, Number(r))
    case ALUI => Alu.IsResult(i.funct3, i.bit30, false, x, i.Iimm, r)
    case ALUR => if i.isRV32M then IsMulDiv(i.funct3, Nat(x), Nat(y), Nat(r))
                 else Alu.IsResult(i.funct3, i.bit30, true, x, y, r)
    case _ => false
  }

  predicate WritesRd(i: Instr) { i.rd != 0 && !i.kind.Branch? && !i.kind.Store? }

  /** The memory after the instruction at a.pc, byte by byte. */
  ghost predicate IsMemory(p: Program, a: Arch, mem: Mem) {
    var i := p.fetch(a.pc);
    var addr := Sum(Source(a, i.rs1), i.Simm);
    forall x: nat :: Byte(mem, x) ==
      if i.kind.Store? && !IsDevice(addr) && addr <= x < addr + Width(i.funct3)
      then ByteOf(Number(Source(a, i.rs2)), x - addr) else Byte(a.mem, x)
  }

  /** b follows a in RV32IM. */
  ghost predicate IsStep(p: Program, a: Arch, b: Arch) {
    var i := p.fetch(a.pc);
    && IsNextPC(i, a.pc, Source(a, i.rs1), Source(a, i.rs2), b.pc)
    && (WritesRd(i) ==> IsValue(p, a, b.regs[i.rd]))
    && (forall id: RegId :: !(WritesRd(i) && id == i.rd) ==> b.regs[id] == a.regs[id])
    && IsMemory(p, a, b.mem)
  }

  /** What a step shows: the destination register's new value. */
  function Committed(p: Program, a: Arch, b: Arch): Commit {
    var i := p.fetch(a.pc);
    if WritesRd(i) then Wrote(a.pc, i.rd, b.regs[i.rd]) else NoWrite(a.pc)
  }

  /** Alike in pc, registers and every byte of memory. */
  ghost predicate Same(a: Arch, b: Arch) {
    a.pc == b.pc && a.regs == b.regs && forall x: nat :: Byte(a.mem, x) == Byte(b.mem, x)
  }

  /**
   The instruction at a.pc stays within what the circuits get right: no left shift with the
   alternate bit that would show, no MULHSU on which the extension of the wrong operand shows,
   and accesses to memory of at most a word, aligned.
   */
  predicate Regular(p: Program, a: Arch) {
    var i := p.fetch(a.pc);
    var x, y := Number(Source(a, i.rs1)), Number(Source(a, i.rs2));
    var z := if i.kind.ALUI? then Number(i.Iimm) else y;
    var addr := Sum(Source(a, i.rs1), if i.kind.Store? then i.Simm else i.Iimm);
    && ((i.kind.ALUR? || i.kind.ALUI?) && !i.isRV32M ==>
          !(i.funct3 == 1 && i.bit30 && x >= 0x8000_0000 && z % 32 != 0))
    && (i.isRV32M && i.funct3 == 2 ==>
          (if x >= 0x8000_0000 then y else 0) == (if y >= 0x8000_0000 then x else 0))
    && ((i.kind.Load? || i.kind.Store?) && !IsDevice(addr) ==>
          i.funct3 != 3 && i.funct3 != 7 && addr % Width(i.funct3) == 0)
  }

  // ---------------------------------------------------------------------------------------
  // A step leaves no choice
  // ---------------------------------------------------------------------------------------

  lemma NextPCUnique(i: Instr, pc: Word, x: Word, y: Word, next: Word, next': Word)
    requires IsNextPC(i, pc, x, y, next) && IsNextPC(i, pc, x, y, next')
    ensures next == next'
  {
    hide Number, Sum, Following, Condition;
    NumberInjective(next, next');
  }

  lemma MulDivUnique(funct3: bv3, x: Multiplier.Unsigned, y: Multiplier.Unsigned, r: nat, r': nat)
    requires IsMulDiv(funct3, x, y, r) && IsMulDiv(funct3, x, y, r')
    ensures r == r'
  {
    hide Multiplier.IsProduct, IntegerDivider.Required, Pow2;
    TwoTo32();
    match funct3 {
      case 0 => Multiplier.ProductUnique(Multiplier.MUL, x, y, r, r');
      case 1 => Multiplier.ProductUnique(Multiplier.MULH, x, y, r, r');
      case 2 => Multiplier.ProductUnique(Multiplier.MULHSU, x, y, r, r');
      case 3 => Multiplier.ProductUnique(Multiplier.MULHU, x, y, r, r');
      case 4 => IntegerDivider.RequiredUnique(32, IntegerDivider.Op(false, false), x, y, r, r');
      case 5 => IntegerDivider.RequiredUnique(32, IntegerDivider.Op(true, false), x, y, r, r');
      case 6 => IntegerDivider.RequiredUnique(32, IntegerDivider.Op(false, true), x, y, r, r');
      case _ => IntegerDivider.RequiredUnique(32, IntegerDivider.Op(true, true), x, y, r, r');
    }
  }

  lemma ValueUnique(p: Program, a: Arch, b: Arch, r: Word, r': Word)
    requires Same(a, b) && IsValue(p, a, r) && IsValue(p, b, r')
    ensures r == r'
  {
    hide Number, Sum, Following, Byte, IsMulDiv, IsDevice, IsLoaded, Alu.IsResult, FromNumber;
    var i := p.fetch(a.pc);
    var x, y := Source(a, i.rs1), Source(a, i.rs2);
    NumberInjective(r, r');
    match i.kind {
      case Load => LoadedSame(i.funct3, a.mem, b.mem, Sum(x, i.Iimm), Number(r), Number(r'));
      case ALUI => Alu.ResultUnique(i.funct3, i.bit30, false, x, i.Iimm, r, r');
      case ALUR =>
        if i.isRV32M {
          MulDivUnique(i.funct3, Nat(x), Nat(y), Nat(r), Nat(r'));
        } else {
          Alu.ResultUnique(i.funct3, i.bit30, true, x, y, r, r');
        }
      case _ =>
    }
  }

  lemma LoadedSame(funct3: bv3, mem: Mem, mem': Mem, x: nat, r: int, r': int)
    requires forall z: nat :: Byte(mem, z) == Byte(mem', z)
    ensures IsLoaded(funct3, mem, x, r) && IsLoaded(funct3, mem', x, r') ==> r == r'
  {
    hide Byte, Extended;
  }

  lemma MemorySame(p: Program, a: Arch, b: Arch, mem: Mem, mem': Mem, x: nat)
    requires Same(a, b) && IsMemory(p, a, mem) && IsMemory(p, b, mem')
    ensures Byte(mem, x) == Byte(mem', x)
  {
    hide Byte, ByteOf, IsDevice, Sum, Width, Number;
  }

  /** From machines that are alike RV32IM steps to machines that are alike. */
  lemma StepUnique(p: Program, a: Arch, b: Arch, a': Arch, b': Arch)
    requires Same(a, b) && IsStep(p, a, a') && IsStep(p, b, b')
    ensures Same(a', b') && Committed(p, a, a') == Committed(p, b, b')
  {
    hide IsNextPC, IsValue, IsMemory, Byte;
    var i := p.fetch(a.pc);
    NextPCUnique(i, a.pc, Source(a, i.rs1), Source(a, i.rs2), a'.pc, b'.pc);
    if WritesRd(i) {
      ValueUnique(p, a, b, a'.regs[i.rd], b'.regs[i.rd]);
    }
    assert forall id: RegId :: a'.regs[id] == b'.regs[id];
    forall x: nat {
      MemorySame(p, a, b, a'.mem, b'.mem, x);
    }
  }

  // ---------------------------------------------------------------------------------------
  // Lanes and bytes
  // ---------------------------------------------------------------------------------------

  function Pair(b0: bv8, b1: bv8): bv16 { (b0 as bv16) | ((b1 as bv16) << 8) }

  lemma JoinOfPairs(b0: bv8, b1: bv8, b2: bv8, b3: bv8)
    ensures ByteMemory.Join(b0, b1, b2, b3) == (Pair(b0, b1) as Word) | ((Pair(b2, b3) as Word) << 16)
  {
  }

  lemma PairNumber(b0: bv8, b1: bv8)
    ensures Pair(b0, b1) as int == b0 as int + 0x100 * (b1 as int)
  {
    PairBits(b0, b1);
    TwoBytes(b0, b1);
  }

  lemma PairBits(b0: bv8, b1: bv8)
    ensures Pair(b0, b1) == (b0 as bv16) | ((b1 as bv16) << 8)
  {
  }

  lemma TwoBytes(b0: bv8, b1: bv8)
    ensures ((b0 as bv16) | ((b1 as bv16) << 8)) as int == b0 as int + 0x100 * (b1 as int)
  {
  }

  lemma PairsNumber(x: bv16, y: bv16)
    ensures Number((x as Word) | ((y as Word) << 16)) == x as int + 0x1_0000 * (y as int)
  {
  }

  lemma JoinNumber(b0: bv8, b1: bv8, b2: bv8, b3: bv8)
    ensures Number(ByteMemory.Join(b0, b1, b2, b3))
      == b0 as int + 0x100 * (b1 as int) + 0x1_0000 * (b2 as int) + 0x100_0000 * (b3 as int)
  {
    hide ByteMemory.Join, Pair, Number;
    JoinOfPairs(b0, b1, b2, b3);
    PairsNumber(Pair(b0, b1), Pair(b2, b3));
    PairNumber(b0, b1);
    PairNumber(b2, b3);
  }

  lemma JoinOfLanes(w: Word)
    ensures ByteMemory.Join(ByteMemory.Lane(w, 0), ByteMemory.Lane(w, 1), ByteMemory.Lane(w, 2), ByteMemory.Lane(w, 3)) == w
  {
  }

  lemma Digits256(n: int, b0: int, b1: int, b2: int, b3: int)
    requires 0 <= b0 < 0x100 && 0 <= b1 < 0x100 && 0 <= b2 < 0x100 && 0 <= b3 < 0x100
    requires n == b0 + 0x100 * b1 + 0x1_0000 * b2 + 0x100_0000 * b3
    ensures ByteOf(n, 0) == b0 && ByteOf(n, 1) == b1 && ByteOf(n, 2) == b2 && ByteOf(n, 3) == b3
  {
    DivUnique(n, 0x100_0000, b3, b0 + 0x100 * b1 + 0x1_0000 * b2);
    DivUnique(n, 0x1_0000, b2 + 0x100 * b3, b0 + 0x100 * b1);
    DivUnique(n, 0x100, b1 + 0x100 * b2 + 0x1_0000 * b3, b0);
    DivUnique(b2 + 0x100 * b3, 0x100, b3, b2);
    DivUnique(b1 + 0x100 * b2 + 0x1_0000 * b3, 0x100, b2 + 0x100 * b3, b1);
    DivUnique(b3, 0x100, 0, b3);
  }

  /** The lanes of a word are the bytes of its number. */
  lemma LaneNumber(w: Word, k: nat)
    requires k < 4
    ensures ByteMemory.Lane(w, k) as int == ByteOf(Number(w), k)
  {
    hide ByteMemory.Lane, ByteMemory.Join, ByteOf, Number;
    var b0, b1 := ByteMemory.Lane(w, 0), ByteMemory.Lane(w, 1);
    var b2, b3 := ByteMemory.Lane(w, 2), ByteMemory.Lane(w, 3);
    JoinOfLanes(w);
    JoinNumber(b0, b1, b2, b3);
    Digits256(Number(w), b0 as int, b1 as int, b2 as int, b3 as int);
  }

  lemma WordNumber(w: Word)
    ensures Number(w) == ByteOf(Number(w), 0) + 0x100 * ByteOf(Number(w), 1) + 0x1_0000 * ByteOf(Number(w), 2)
                           + 0x100_0000 * ByteOf(Number(w), 3)
  {
    hide ByteMemory.Lane, ByteMemory.Join, ByteOf, Number;
    JoinOfLanes(w);
    JoinNumber(ByteMemory.Lane(w, 0), ByteMemory.Lane(w, 1), ByteMemory.Lane(w, 2), ByteMemory.Lane(w, 3));
    LaneNumber(w, 0);
    LaneNumber(w, 1);
    LaneNumber(w, 2);
    LaneNumber(w, 3);
  }

  lemma ByteNumber(mem: Mem, x: nat)
    ensures Byte(mem, x) == ByteMemory.ByteAt(mem, x) as int
  {
    hide ByteMemory.Lane, ByteOf, Number;
    LaneNumber(ByteMemory.Read(mem, x / 4), x % 4);
    ZeroNumber();
  }

  // ---------------------------------------------------------------------------------------
  // Loads and stores
  // ---------------------------------------------------------------------------------------

  lemma SizeMeans(i: Instr)
    requires i.funct3 != 3 && i.funct3 != 7
    ensures SizeOf(i) != ByteMemory.D && ByteMemory.Bytes(SizeOf(i)) == Width(i.funct3)
    ensures SizeOf(i).B? <==> i.funct3 == 0 || i.funct3 == 4
    ensures SizeOf(i).H? <==> i.funct3 == 1 || i.funct3 == 5
    ensures IsUnsigned(i) <==> i.funct3 >= 4
  {
  }

  lemma ExtractIsLoad(mem: Mem, size: ByteMemory.Size, unsigned: bool, addr: ByteMemory.Address)
    requires size != ByteMemory.D
    ensures ByteMemory.Extract(size, unsigned, addr, ByteMemory.Double(ByteMemory.Read(mem, addr / 4), 0)).lo
      == ByteMemory.Load(mem, size, unsigned, addr).lo
  {
    hide ByteMemory.Extended, ByteMemory.Lane, ByteMemory.Read;
  }

  lemma ByteLoaded(mem: Mem, unsigned: bool, x: ByteMemory.Address)
    ensures Number(ByteMemory.Load(mem, ByteMemory.B, unsigned, x).lo) == ByteMemory.SignExtended(unsigned, Byte(mem, x), 0x80)
  {
    hide Byte, ByteMemory.ByteAt, ByteMemory.Load, ByteMemory.SignExtended;
    ByteMemory.LoadByte(mem, unsigned, x);
    ByteNumber(mem, x);
  }

  lemma HalfLoaded(mem: Mem, unsigned: bool, x: ByteMemory.Address)
    requires x % 2 == 0
    ensures Number(ByteMemory.Load(mem, ByteMemory.H, unsigned, x).lo) == ByteMemory.SignExtended(unsigned, Half(mem, x), 0x8000)
  {
    hide Byte, ByteMemory.ByteAt, ByteMemory.Load, ByteMemory.SignExtended;
    ByteMemory.LoadHalf(mem, unsigned, x);
    ByteNumber(mem, x);
    ByteNumber(mem, x + 1);
  }

  lemma WordLoaded(mem: Mem, unsigned: bool, x: ByteMemory.Address)
    requires x % 4 == 0
    ensures Number(ByteMemory.Load(mem, ByteMemory.W, unsigned, x).lo) == Half(mem, x) + 0x1_0000 * Half(mem, x + 2)
  {
    hide ByteMemory.Load, ByteMemory.Lane, ByteMemory.ByteAt, ByteOf, Byte, Number;
    var r := ByteMemory.Load(mem, ByteMemory.W, unsigned, x);
    ByteMemory.LoadWord(mem, unsigned, x);
    WordNumber(r.lo);
    forall k: nat | k < 4
      ensures ByteOf(Number(r.lo), k) == Byte(mem, x + k)
    {
      assert ByteMemory.ByteOf(r, k) == ByteMemory.Lane(r.lo, k);
      LaneNumber(r.lo, k);
      ByteNumber(mem, x + k);
    }
  }

  lemma LoadCorrect(mem: Mem, i: Instr, addr: Word)
    requires i.funct3 != 3 && i.funct3 != 7 && Nat(addr) % Width(i.funct3) == 0
    ensures IsLoaded(i.funct3, mem, Nat(addr), Number(Extract(i, addr, ByteMemory.Read(mem, Nat(addr) / 4))))
  {
    hide ByteMemory.Extract, ByteMemory.Load, ByteMemory.Read, Byte, Half, Number, SizeOf, IsUnsigned, Width;
    var size, unsigned, x := SizeOf(i), IsUnsigned(i), Nat(addr);
    SizeMeans(i);
    ExtractIsLoad(mem, size, unsigned, x);
    match size {
      case B => ByteLoaded(mem, unsigned, x);
      case H => HalfLoaded(mem, unsigned, x);
      case W => WordLoaded(mem, unsigned, x);
    }
  }

  lemma StoreCorrect(mem: Mem, i: Instr, addr: Word, data: Word, x: nat)
    requires i.funct3 != 3 && i.funct3 != 7 && Nat(addr) % Width(i.funct3) == 0
    ensures Byte(StoreLanes(mem, i, addr, data), x) ==
      if Nat(addr) <= x < Nat(addr) + Width(i.funct3) then ByteOf(Number(data), x - Nat(addr)) else Byte(mem, x)
  {
    hide ByteMemory.Lane, ByteMemory.ByteAt, ByteMemory.Store, Byte, ByteOf, Number, SizeOf, Width;
    SizeMeans(i);
    ByteMemory.StoreIsByteStore(mem, SizeOf(i), Nat(addr), ByteMemory.Double(data, 0xFFFF_FFFF), x);
    ByteNumber(StoreLanes(mem, i, addr, data), x);
    ByteNumber(mem, x);
    if Nat(addr) <= x < Nat(addr) + Width(i.funct3) {
      LaneNumber(data, x - Nat(addr));
    }
  }

  // ---------------------------------------------------------------------------------------
  // Addresses and conditions
  // ---------------------------------------------------------------------------------------

  lemma SumNumber(a: Word, b: Word)
    ensures Number(Plus(a, b)) == Sum(a, b) && Plus(a, b) == FromNumber(Sum(a, b))
  {
    hide Number, FromNumber, Plus;
    PlusNumber(a, b);
    BackAgain(Plus(a, b));
  }

  lemma SmallNumbers()
    ensures Number(2) == 2 && Number(4) == 4
  {
  }

  lemma FollowingNumber(p: Program, i: Instr, pc: Word)
    ensures Number(Pipelined(p).sequel(i, pc)) == Following(i, pc)
  {
    hide Number, Plus;
    SmallNumbers();
    SumNumber(pc, if i.isRV32C then 2 else 4);
  }

  lemma IndirectNumber(p: Program, i: Instr, x: Word)
    ensures Number(Pipelined(p).indirect(i, x)) == Sum(x, i.Iimm) / 2 * 2
  {
    hide Number, Sum, Plus, ClearLowest;
    SumNumber(x, i.Iimm);
    ClearNumber(Plus(x, i.Iimm));
  }

  lemma DeviceBit(addr: Word)
    ensures IsIO(addr) <==> Bit(Right(addr, 22)) == 1
    ensures Number5(22) == 22
  {
  }

  lemma DeviceNumber(addr: Word)
    ensures IsIO(addr) <==> IsDevice(Nat(addr))
  {
    hide IsIO, Bit, Right, Number, Number5, Pow2;
    DeviceBit(addr);
    BitAt(addr, 22);
    TwoTo22();
  }

  lemma TwoTo22()
    ensures Pow2(22) == 0x40_0000
  {
    assert Pow2(11) == 2048;
    Pow2Add(11, 11);
  }

  lemma TakenCorrect(i: Instr, x: Word, y: Word)
    ensures Taken(i, x, y) <==> Condition(i.funct3, Number(x), Number(y))
  {
    hide Alu.LT, Alu.LTU, Alu.EQ, Alu.Minus, Alu.Value, Number;
    Alu.ComparisonsMean(Alu.Value(x), Alu.Value(y));
    Alu.ValueNumber(x);
    Alu.ValueNumber(y);
  }

  // ---------------------------------------------------------------------------------------
  // The step of the pipeline's circuits
  // ---------------------------------------------------------------------------------------

  lemma NextPCCorrect(p: Program, i: Instr, pc: Word, x: Word, y: Word)
    ensures IsNextPC(i, pc, x, y, NextPC(Pipelined(p), i, pc, x, y))
  {
    hide Number, Sum, Plus, ClearLowest, Following, Condition, Taken;
    SumNumber(pc, i.Jimm);
    SumNumber(pc, i.Bimm);
    FollowingNumber(p, i, pc);
    IndirectNumber(p, i, x);
    TakenCorrect(i, x, y);
  }

  lemma ProductCorrect(i: Instr, x: Word, y: Word)
    requires i.isRV32M && !i.isDIV
    requires i.funct3 == 2 ==>
      (if Number(x) >= 0x8000_0000 then Number(y) else 0) == (if Number(y) >= 0x8000_0000 then Number(x) else 0)
    ensures IsMulDiv(i.funct3, Nat(x), Nat(y), Nat(Multiply(i, x, y)))
  {
    hide Multiplier.Multiply, Multiplier.IsProduct, IntegerDivider.Required, Number, FromNumber;
    Multiplier.MultiplyCorrect(ProductOf(i), Nat(x), Nat(y));
    NumberOfFrom(Multiplier.Multiply(ProductOf(i), Nat(x), Nat(y)));
  }

  lemma QuotientCorrect(i: Instr, x: Word, y: Word)
    requires i.isDIV
    ensures IsMulDiv(i.funct3, Nat(x), Nat(y), Nat(Divide(i, x, y)))
  {
    hide Divide, Multiplier.IsProduct, IntegerDivider.Required, Number;
  }

  /** The second operand of OP or OP-IMM. */
  function Second(i: Instr, y: Word): Word { if i.kind.ALUI? then i.Iimm else y }

  lemma ValueComputed(p: Program, a: Arch)
    requires var i := p.fetch(a.pc); i.kind.ALUR? || i.kind.ALUI?
    ensures var i := p.fetch(a.pc);
      var x, y := Source(a, i.rs1), Source(a, i.rs2);
      WriteValue(Pipelined(p), a) == if i.isDIV then Divide(i, x, y) else Compute(i, x, Second(i, y))
  {
    hide Compute, Divide, Plus, ClearLowest, IsIO, Taken, Extract, StoreLanes;
  }

  lemma ComputeCorrect(p: Program, a: Arch)
    requires Regular(p, a)
    requires var i := p.fetch(a.pc); i.kind.ALUR? || i.kind.ALUI?
    ensures IsValue(p, a, WriteValue(Pipelined(p), a))
  {
    hide IsMulDiv, Alu.IsResult, Alu.PipelineAlu, Multiply, Divide, Number, Sum, IsDevice, Width, Pipelined, WriteValue;
    var i := p.fetch(a.pc);
    var x, y := Source(a, i.rs1), Source(a, i.rs2);
    ValueComputed(p, a);
    if i.isDIV {
      QuotientCorrect(i, x, y);
    } else if i.isRV32M {
      ProductCorrect(i, x, y);
    } else {
      Alu.PipelineAluCorrect(i.funct3, i.bit30, i.kind.ALUR?, x, Second(i, y));
    }
  }

  lemma LoadedCorrect(p: Program, a: Arch)
    requires Regular(p, a) && p.fetch(a.pc).kind.Load?
    ensures IsValue(p, a, WriteValue(Pipelined(p), a))
  {
    hide Number, Sum, Plus, IsDevice, IsIO, IsLoaded, FromNumber, Width, Extract;
    var i := p.fetch(a.pc);
    var x := Source(a, i.rs1);
    var addr := Plus(x, i.Iimm);
    SumNumber(x, i.Iimm);
    DeviceNumber(addr);
    if !IsDevice(Nat(addr)) {
      LoadCorrect(a.mem, i, addr);
    }
  }

  lemma ValueCorrect(p: Program, a: Arch)
    requires Regular(p, a) && WritesRd(p.fetch(a.pc))
    ensures IsValue(p, a, WriteValue(Pipelined(p), a))
  {
    hide Number, Sum, Plus, Following, Regular;
    var i := p.fetch(a.pc);
    match i.kind {
      case Load => LoadedCorrect(p, a);
      case ALUI | ALUR => ComputeCorrect(p, a);
      case _ =>
        SumNumber(a.pc, i.Uimm);
        FollowingNumber(p, i, a.pc);
    }
  }

  lemma MemoryCorrect(p: Program, a: Arch)
    requires Regular(p, a)
    ensures IsMemory(p, a, StoreEffect(Pipelined(p), a))
  {
    hide Number, Sum, Plus, IsDevice, IsIO, Byte, ByteOf, Width, StoreLanes;
    var i := p.fetch(a.pc);
    var x, y := Source(a, i.rs1), Source(a, i.rs2);
    var addr := Plus(x, i.Simm);
    SumNumber(x, i.Simm);
    DeviceNumber(addr);
    if i.kind.Store? && !IsDevice(Nat(addr)) {
      forall z: nat {
        StoreCorrect(a.mem, i, addr, y, z);
      }
    }
  }

  /** On a regular instruction the circuits take the step of the instruction set. */
  lemma StepIsArchitectural(p: Program, a: Arch)
    requires Regular(p, a)
    ensures IsStep(p, a, Step(Pipelined(p), a))
    ensures CommitOf(Pipelined(p), a) == Committed(p, a, Step(Pipelined(p), a))
  {
    hide NextPC, WriteValue, StoreEffect, IsNextPC, IsValue, IsMemory, Regular;
    var i := p.fetch(a.pc);
    NextPCCorrect(p, i, a.pc, Source(a, i.rs1), Source(a, i.rs2));
    MemoryCorrect(p, a);
    if WritesRd(i) {
      ValueCorrect(p, a);
    }
  }

  // ---------------------------------------------------------------------------------------
  // Runs
  // ---------------------------------------------------------------------------------------

  /** An execution of RV32IM from `start`, of regular instructions. */
  ghost predicate IsRun(p: Program, start: Arch, run: seq<Arch>) {
    && |run| > 0 && run[0] == start
    && forall i: nat :: i + 1 < |run| ==> Regular(p, run[i]) && IsStep(p, run[i], run[i + 1])
  }

  lemma RegularSame(p: Program, a: Arch, b: Arch)
    requires Same(a, b) && Regular(p, a)
    ensures Regular(p, b)
  {
    hide Byte, Number, Sum, IsDevice, Width;
  }

  lemma {:induction false} RunIsArchitectural(p: Program, start: Arch, run: seq<Arch>, n: nat)
    requires IsRun(p, start, run) && n < |run|
    ensures Same(run[n], Run(Pipelined(p), start, n))
    ensures n + 1 < |run| ==> CommitOf(Pipelined(p), Run(Pipelined(p), start, n)) == Committed(p, run[n], run[n + 1])
  {
    hide Step, CommitOf, Pipelined, Regular, Same, IsStep, Committed;
    var b := Run(Pipelined(p), start, n);
    if n > 0 {
      RunIsArchitectural(p, start, run, n - 1);
      StepKeepsSame(p, run[n - 1], run[n], Run(Pipelined(p), start, n - 1));
    } else {
      SameItself(start);
    }
    if n + 1 < |run| {
      StepKeepsSame(p, run[n], run[n + 1], b);
    }
  }

  lemma SameItself(a: Arch)
    ensures Same(a, a)
  {
  }

  lemma StepKeepsSame(p: Program, a: Arch, a': Arch, b: Arch)
    requires Regular(p, a) && IsStep(p, a, a') && Same(a, b)
    ensures Same(a', Step(Pipelined(p), b))
    ensures CommitOf(Pipelined(p), b) == Committed(p, a, a')
  {
    hide *;
    RegularSame(p, a, b);
    StepIsArchitectural(p, b);
    StepUnique(p, a, b, a', Step(Pipelined(p), b));
  }

  /**
   The pipeline with its own circuits runs RV32IM: on every program, under any predictions, what
   it has retired is what an execution of the instruction set commits, its registers and the
   bytes of its memory are those of that execution, as far as the instructions are regular.
   */
  lemma PipelineRunsRv32(p: Program, s: Pipeline.State, bht: nat -> bool, n: nat, run: seq<Arch>)
    requires Pipeline.Drained(s) && s.fd.instr == p.fetch(s.fd.pc)
    requires IsRun(p, Arch(s.pc, s.regs, s.mem), run)
    requires |run| > |Pipeline.Retired(Pipelined(p), s, bht, n)| + Pipeline.Count(Pipeline.RunClocks(Pipelined(p), s, bht, n).mw.nop)
    ensures var now := Pipeline.RunClocks(Pipelined(p), s, bht, n);
      var retired := Pipeline.Retired(Pipelined(p), s, bht, n);
      && (forall i :: 0 <= i < |retired| ==> retired[i] == Committed(p, run[i], run[i + 1]))
      && now.regs == run[|retired|].regs
      && (forall x: nat :: Byte(now.mem, x) == Byte(run[|retired| + Pipeline.Count(now.mw.nop)].mem, x))
  {
    hide Step, CommitOf, Pipelined, IsRun, Run, IsaDivision, Pipeline.Inv, Pipeline.Clock, Pipeline.Retired,
      Pipeline.RunClocks, Pipeline.Drained, Pipeline.Count, Committed, Byte;
    var d, start := Pipelined(p), Arch(s.pc, s.regs, s.mem);
    PipelinedDivides(p);
    PipelinedFetches(p);
    Pipeline.PipelineRefinesIsa(d, s, bht, n);
    var retired := Pipeline.Retired(d, s, bht, n);
    var k := |retired|;
    forall i | 0 <= i < k
      ensures retired[i] == Committed(p, run[i], run[i + 1])
    {
      RunIsArchitectural(p, start, run, i);
    }
    RunIsArchitectural(p, start, run, k);
    RunIsArchitectural(p, start, run, k + Pipeline.Count(Pipeline.RunClocks(d, s, bht, n).mw.nop));
  }

  lemma PipelinedFetches(p: Program)
    ensures Pipelined(p).fetch == p.fetch
  {
  }
}
