/**
 The data memory: 32-bit words written under a mask, two words at a time, with the store
 data replicated over the byte lanes and loads extracted from a word pair.

 The specification is a map from byte addresses to bytes.
 */
module ByteMemory {
  type Word = bv32
  type Byte = bv8
  type Address = x: int | 0 <= x < 0x1_0000_0000
  type Mem = map<nat, Word>     // DATAMEM, by word index

  /** A 64-bit register or bus. */
  datatype Double = Double(lo: Word, hi: Word)

  datatype Size = B | H | W | D          // funct3[1:0]

  function Bytes(size: Size): nat {
    match size case B => 1 case H => 2 case W => 4 case D => 8
  }

  predicate Aligned(addr: Address, size: Size) {
    addr % Bytes(size) == 0
  }

  function Read(mem: Mem, index: nat): Word {
    if index in mem then mem[index] else 0
  }

  /** DMemRData: the addressed word and the one above it. */
  function ReadPair(mem: Mem, addr: Address): Double {
    Double(Read(mem, addr / 4), Read(mem, addr / 4 + 1))
  }

  function Lane(w: Word, k: nat): Byte
    requires k < 4
  {
    match k
    case 0 => (w & 0xFF) as Byte
    case 1 => ((w >> 8) & 0xFF) as Byte
    case 2 => ((w >> 16) & 0xFF) as Byte
    case _ => ((w >> 24) & 0xFF) as Byte
  }

  function Join(b0: Byte, b1: Byte, b2: Byte, b3: Byte): Word {
    (b0 as Word) | ((b1 as Word) << 8) | ((b2 as Word) << 16) | ((b3 as Word) << 24)
  }

  lemma LanesOfJoin(b0: Byte, b1: Byte, b2: Byte, b3: Byte)
    ensures var w := Join(b0, b1, b2, b3);
      Lane(w, 0) == b0 && Lane(w, 1) == b1 && Lane(w, 2) == b2 && Lane(w, 3) == b3
  {
  }

  // ---------------------------------------------------------------------------------------
  // Stores
  // ---------------------------------------------------------------------------------------

  datatype Mask = Mask(m0: bool, m1: bool, m2: bool, m3: bool, m4: bool)

  /** M_storeMask. */
  function StoreMask(size: Size, addr: Address): Mask {
    match size
    case B => Mask(addr % 4 == 0, addr % 4 == 1, addr % 4 == 2, addr % 4 == 3, false)
    case H => if addr / 2 % 2 == 1 then Mask(false, false, true, true, false)
                                   else Mask(true, true, false, false, false)
    case W => Mask(true, true, true, true, false)
    case D => Mask(true, true, true, true, true)
  }

  /** M_storeData: the byte or half replicated over the lanes, by the low address bits alone. */
  function StoreData(addr: Address, rs2: Double): Double {
    var b0, b1 := Lane(rs2.lo, 0), Lane(rs2.lo, 1);
    if addr % 2 == 1 then Double(Join(b0, b0, b0, b0), Join(b0, b0, b0, b0))
    else if addr / 2 % 2 == 1 then Double(Join(b0, b1, b0, b1), Join(b0, b1, b0, b1))
    else rs2
  }

  /** DMemWData of the archived cores: each lane has its own multiplexer. */
  function StoreDataMuxed(addr: Address, rs2: Word): Word {
    var odd, upper := addr % 2 == 1, addr / 2 % 2 == 1;
    Join(Lane(rs2, 0),
         if odd then Lane(rs2, 0) else Lane(rs2, 1),
         if upper then Lane(rs2, 0) else Lane(rs2, 2),
         if odd then Lane(rs2, 0) else if upper then Lane(rs2, 1) else Lane(rs2, 3))
  }

  function Merge(before: Word, data: Word, m: Mask): Word {
    Join(if m.m0 then Lane(data, 0) else Lane(before, 0),
         if m.m1 then Lane(data, 1) else Lane(before, 1),
         if m.m2 then Lane(data, 2) else Lane(before, 2),
         if m.m3 then Lane(data, 3) else Lane(before, 3))
  }

  /** The clocked write of the memory. */
  function Write(mem: Mem, addr: Address, data: Double, m: Mask): Mem {
    var index := addr / 4;
    var low := if m.m0 || m.m1 || m.m2 || m.m3 then mem[index := Merge(Read(mem, index), data.lo, m)] else mem;
    if m.m4 then low[index + 1 := data.hi] else low
  }

  function Store(mem: Mem, size: Size, addr: Address, rs2: Double): Mem {
    Write(mem, addr, StoreData(addr, rs2), StoreMask(size, addr))
  }

  function StoreMuxed(mem: Mem, size: Size, addr: Address, rs2: Word): Mem {
    Write(mem, addr, Double(StoreDataMuxed(addr, rs2), 0), StoreMask(size, addr))
  }

  // ---------------------------------------------------------------------------------------
  // Loads
  // ---------------------------------------------------------------------------------------

  function Half(b0: Byte, b1: Byte): Word { Join(b0, b1, 0, 0) }

  function Extended(size: Size, unsigned: bool, b0: Byte, b1: Byte): Word {
    if size == B then Filled(!unsigned && b0 >= 0x80, 0xFFFF_FF00, b0 as Word)
    else Filled(!unsigned && b1 >= 0x80, 0xFFFF_0000, Half(b0, b1))
  }

  function Filled(ones: bool, upper: Word, w: Word): Word {
    (if ones then upper else 0) | w
  }

  /** M_Mdata: half, then byte, chosen by the address; integer results are boxed in ones. */
  function Extract(size: Size, unsigned: bool, addr: Address, data: Double): Double {
    var upper := addr / 2 % 2 == 1;
    var h0 := if upper then Lane(data.lo, 2) else Lane(data.lo, 0);
    var h1 := if upper then Lane(data.lo, 3) else Lane(data.lo, 1);
    match size
    case B => Double(Extended(B, unsigned, if addr % 2 == 1 then h1 else h0, 0), 0xFFFF_FFFF)
    case H => Double(Extended(H, unsigned, h0, h1), 0xFFFF_FFFF)
    case W => Double(data.lo, 0xFFFF_FFFF)
    case D => data
  }

  function Load(mem: Mem, size: Size, unsigned: bool, addr: Address): Double {
    Extract(size, unsigned, addr, ReadPair(mem, addr))
  }

  // ---------------------------------------------------------------------------------------
  // The byte map
  // ---------------------------------------------------------------------------------------

  /** The byte the memory holds at x. */
  function ByteAt(mem: Mem, x: nat): Byte {
    Lane(Read(mem, x / 4), x % 4)
  }

  /** The k-th byte of a 64-bit value. */
  function ByteOf(v: Double, k: nat): Byte
    requires k < 8
  {
    if k < 4 then Lane(v.lo, k) else Lane(v.hi, k - 4)
  }

  predicate Enabled(m: Mask, k: nat)
    requires k < 4
  {
    match k case 0 => m.m0 case 1 => m.m1 case 2 => m.m2 case _ => m.m3
  }

  lemma MergedLane(before: Word, data: Word, m: Mask, k: nat)
    requires k < 4
    ensures Lane(Merge(before, data, m), k) == Lane(if Enabled(m, k) then data else before, k)
  {
    hide Lane, Join;
    LanesOfJoin(if m.m0 then Lane(data, 0) else Lane(before, 0), if m.m1 then Lane(data, 1) else Lane(before, 1),
                if m.m2 then Lane(data, 2) else Lane(before, 2), if m.m3 then Lane(data, 3) else Lane(before, 3));
  }

  lemma LowAddress(addr: Address)
    ensures addr % 4 == 2 * (addr / 2 % 2) + addr % 2
    ensures addr % 2 == 0 ==> (addr + 1) / 4 == addr / 4 && (addr + 1) % 4 == addr % 4 + 1
  {
  }

  /** The mask enables the addressed lanes of the low word. */
  lemma LaneEnabled(size: Size, addr: Address, k: nat)
    requires Aligned(addr, size) && k < 4
    ensures var x := addr / 4 * 4 + k;
      Enabled(StoreMask(size, addr), k) <==> addr <= x < addr + Bytes(size)
  {
    LowAddress(addr);
  }

  /** And replication put the right byte in each. */
  lemma LaneWritten(size: Size, addr: Address, rs2: Double, k: nat)
    requires Aligned(addr, size) && k < 4
    requires var x := addr / 4 * 4 + k; addr <= x < addr + Bytes(size)
    ensures Lane(StoreData(addr, rs2).lo, k) == ByteOf(rs2, addr / 4 * 4 + k - addr)
  {
    hide Lane, Join;
    LowAddress(addr);
    var b0, b1 := Lane(rs2.lo, 0), Lane(rs2.lo, 1);
    LanesOfJoin(b0, b0, b0, b0);
    LanesOfJoin(b0, b1, b0, b1);
  }

  lemma EightAligned(addr: nat)
    requires addr % 8 == 0
    ensures addr % 4 == 0 && addr % 2 == 0 && addr / 2 % 2 == 0
  {
    var q := addr / 8;
    assert addr == 4 * (2 * q) == 2 * (4 * q);
    assert addr / 2 == 4 * q == 2 * (2 * q);
  }

  /** An aligned store replaces exactly the addressed bytes, in little-endian order. */
  lemma StoreIsByteStore(mem: Mem, size: Size, addr: Address, rs2: Double, x: nat)
    requires Aligned(addr, size)
    ensures ByteAt(Store(mem, size, addr, rs2), x) ==
      if addr <= x < addr + Bytes(size) then ByteOf(rs2, x - addr) else ByteAt(mem, x)
  {
    hide Lane, Join, Merge, StoreMask, StoreData;
    var k := x % 4;
    MergedLane(Read(mem, addr / 4), StoreData(addr, rs2).lo, StoreMask(size, addr), k);
    LaneEnabled(size, addr, k);
    if addr <= addr / 4 * 4 + k < addr + Bytes(size) {
      LaneWritten(size, addr, rs2, k);
    }
    UpperWord(size, addr, rs2);
  }

  /** Only a double store writes the upper word, and it writes all of it. */
  lemma UpperWord(size: Size, addr: Address, rs2: Double)
    requires Aligned(addr, size)
    ensures StoreMask(size, addr).m4 <==> size == D
    ensures size == D ==> StoreData(addr, rs2) == rs2 && addr % 4 == 0
  {
    hide Lane, Join;
    if size == D {
      EightAligned(addr);
    }
  }

  /** A loaded number, in two's complement unless it is unsigned, as a 32-bit word holds it. */
  function SignExtended(unsigned: bool, value: int, half: int): int {
    if !unsigned && value >= half then value - 2 * half + 0x1_0000_0000 else value
  }

  /** A 64-bit register holds the bytes a load of this size is to bring, extended; a word or less is boxed in ones. */
  predicate IsLoaded(size: Size, unsigned: bool, r: Double, at: nat -> Byte, addr: Address) {
    match size
    case B => r.lo as int == SignExtended(unsigned, at(addr) as int, 0x80) && r.hi == 0xFFFF_FFFF
    case H => r.lo as int == SignExtended(unsigned, at(addr) as int + 0x100 * at(addr + 1) as int, 0x8000) && r.hi == 0xFFFF_FFFF
    case W => (forall k :: 0 <= k < 4 ==> ByteOf(r, k) == at(addr + k)) && r.hi == 0xFFFF_FFFF
    case D => forall k :: 0 <= k < 8 ==> ByteOf(r, k) == at(addr + k)
  }

  lemma ExtendedByte(unsigned: bool, b: Byte)
    ensures Extended(B, unsigned, b, 0) as int == SignExtended(unsigned, b as int, 0x80)
  {
  }

  lemma ExtendedHalf(unsigned: bool, b0: Byte, b1: Byte)
    ensures Extended(H, unsigned, b0, b1) as int == SignExtended(unsigned, b0 as int + 0x100 * b1 as int, 0x8000)
  {
    hide Half, Extended;
    HalfValue(b0, b1);
    SignByte(b1);
    ExtendedIs(unsigned, b0, b1);
    OnesAbove(Half(b0, b1));
    HalfSign(b0 as int, b1 as int);
  }

  lemma ExtendedIs(unsigned: bool, b0: Byte, b1: Byte)
    ensures Extended(H, unsigned, b0, b1) == if !unsigned && b1 >= 0x80 then 0xFFFF_0000 | Half(b0, b1) else 0 | Half(b0, b1)
  {
    hide Half, Filled;
    FilledIs(0xFFFF_0000, Half(b0, b1));
  }

  lemma FilledIs(upper: Word, w: Word)
    ensures Filled(true, upper, w) == upper | w && Filled(false, upper, w) == 0 | w
  {
  }

  lemma HalfSign(x: int, y: int)
    requires 0 <= x < 0x100 && 0 <= y < 0x100
    ensures 0 <= x + 0x100 * y < 0x1_0000
    ensures x + 0x100 * y >= 0x8000 <==> y >= 0x80
  {
  }

  lemma HalfValue(b0: Byte, b1: Byte)
    ensures Half(b0, b1) as int == b0 as int + 0x100 * b1 as int
  {
    HalfBits(b0, b1);
    TwoBytes(b0, b1);
  }

  lemma HalfBits(b0: Byte, b1: Byte)
    ensures Half(b0, b1) == (b0 as Word) | ((b1 as Word) << 8)
  {
  }

  lemma TwoBytes(b0: Byte, b1: Byte)
    ensures ((b0 as Word) | ((b1 as Word) << 8)) as int == b0 as int + 0x100 * b1 as int
  {
  }

  lemma SignByte(b: Byte)
    ensures b >= 0x80 <==> b as int >= 0x80
  {
  }

  lemma OnesAbove(h: Word)
    requires h as int < 0x1_0000
    ensures (0xFFFF_0000 | h) as int == 0xFFFF_0000 + h as int && 0 | h == h
  {
  }

  /** An aligned load brings the addressed bytes and extends them. */
  lemma LoadIsByteLoad(mem: Mem, size: Size, unsigned: bool, addr: Address)
    requires Aligned(addr, size)
    ensures IsLoaded(size, unsigned, Load(mem, size, unsigned, addr), (x: nat) => ByteAt(mem, x), addr)
  {
    hide Lane, Join, Extended, SignExtended, Read, ByteAt, Extract;
    match size {
      case B => LoadByte(mem, unsigned, addr);
      case H => LoadHalf(mem, unsigned, addr);
      case W => LoadWord(mem, unsigned, addr);
      case D => LoadDouble(mem, unsigned, addr);
    }
  }

  lemma LoadByte(mem: Mem, unsigned: bool, addr: Address)
    ensures var r := Load(mem, B, unsigned, addr);
      r.lo as int == SignExtended(unsigned, ByteAt(mem, addr) as int, 0x80) && r.hi == 0xFFFF_FFFF
  {
    hide Lane, Join, Extended, SignExtended, Read;
    LowAddress(addr);
    ExtendedByte(unsigned, ByteAt(mem, addr));
  }

  lemma LoadHalf(mem: Mem, unsigned: bool, addr: Address)
    requires addr % 2 == 0
    ensures var r := Load(mem, H, unsigned, addr);
      && r.lo as int == SignExtended(unsigned, ByteAt(mem, addr) as int + 0x100 * ByteAt(mem, addr + 1) as int, 0x8000)
      && r.hi == 0xFFFF_FFFF
  {
    hide Lane, Join, Extended, SignExtended, Read;
    LowAddress(addr);
    ExtendedHalf(unsigned, ByteAt(mem, addr), ByteAt(mem, addr + 1));
  }

  lemma LoadWord(mem: Mem, unsigned: bool, addr: Address)
    requires addr % 4 == 0
    ensures var r := Load(mem, W, unsigned, addr);
      (forall k :: 0 <= k < 4 ==> ByteOf(r, k) == ByteAt(mem, addr + k)) && r.hi == 0xFFFF_FFFF
  {
    hide Lane, Read, Join, Extended;
    WordLanes(mem, addr);
  }

  lemma LoadDouble(mem: Mem, unsigned: bool, addr: Address)
    requires addr % 8 == 0
    ensures var r := Load(mem, D, unsigned, addr);
      forall k :: 0 <= k < 8 ==> ByteOf(r, k) == ByteAt(mem, addr + k)
  {
    hide Lane, Read, Join, Extended, ByteAt;
    EightAligned(addr);
    WordLanes(mem, addr);
    WordLanes(mem, addr + 4);
    var r := ReadPair(mem, addr);
    forall k | 0 <= k < 8
      ensures ByteOf(r, k) == ByteAt(mem, addr + k)
    {
      if k >= 4 {
        assert Lane(r.hi, k - 4) == ByteAt(mem, addr + 4 + (k - 4));
      }
    }
  }

  lemma WordLanes(mem: Mem, addr: nat)
    requires addr % 4 == 0
    ensures forall k :: 0 <= k < 4 ==> Lane(Read(mem, addr / 4), k) == ByteAt(mem, addr + k)
    ensures (addr + 4) / 4 == addr / 4 + 1 && (addr + 4) % 4 == 0
  {
    hide Lane, Read;
  }

  // ---------------------------------------------------------------------------------------
  // Runs of stores
  // ---------------------------------------------------------------------------------------

  datatype Access = Access(size: Size, addr: Address, value: Double)

  predicate Covers(s: Access, x: nat) {
    s.addr <= x < s.addr + Bytes(s.size)
  }

  function StoreAll(mem: Mem, stores: seq<Access>): Mem {
    if stores == [] then mem
    else var s := stores[|stores| - 1];
         Store(StoreAll(mem, stores[..|stores| - 1]), s.size, s.addr, s.value)
  }

  /** The byte last written at x, or the one that was there to begin with. */
  function LastWritten(mem: Mem, stores: seq<Access>, x: nat): Byte {
    if stores == [] then ByteAt(mem, x)
    else
      var s := stores[|stores| - 1];
      if Covers(s, x) then ByteOf(s.value, x - s.addr) else LastWritten(mem, stores[..|stores| - 1], x)
  }

  /**
   Over any run of aligned stores the masked word memory is a byte map: it holds at every
   address the byte last written there, and an aligned load of any size returns those bytes
   with the extension its opcode asks for.
   */
  lemma {:induction false} MemoryIsByteMap(mem: Mem, stores: seq<Access>, x: nat)
    requires forall i :: 0 <= i < |stores| ==> Aligned(stores[i].addr, stores[i].size)
    ensures ByteAt(StoreAll(mem, stores), x) == LastWritten(mem, stores, x)
  {
    hide Store, ByteAt;
    if stores == [] {
    } else {
      var s := stores[|stores| - 1];
      var earlier := stores[..|stores| - 1];
      MemoryIsByteMap(mem, earlier, x);
      StoreIsByteStore(StoreAll(mem, earlier), s.size, s.addr, s.value, x);
    }
  }

  lemma LoadAfterStores(mem: Mem, stores: seq<Access>, size: Size, unsigned: bool, addr: Address)
    requires Aligned(addr, size)
    requires forall i :: 0 <= i < |stores| ==> Aligned(stores[i].addr, stores[i].size)
    ensures IsLoaded(size, unsigned, Load(StoreAll(mem, stores), size, unsigned, addr), (x: nat) => LastWritten(mem, stores, x), addr)
  {
    hide Load, Store, ByteAt, LastWritten, StoreAll, SignExtended, Lane;
    LoadIsByteLoad(StoreAll(mem, stores), size, unsigned, addr);
    forall x: nat
      ensures ByteAt(StoreAll(mem, stores), x) == LastWritten(mem, stores, x)
    {
      MemoryIsByteMap(mem, stores, x);
    }
  }

  /** For aligned bytes, halves and words the archived cores' lane multiplexers write the same memory. */
  lemma MuxedStoreAgrees(mem: Mem, size: Size, addr: Address, rs2: Double)
    requires Aligned(addr, size) && size != D
    ensures StoreMuxed(mem, size, addr, rs2.lo) == Store(mem, size, addr, rs2)
  {
    hide Lane, Merge, StoreDataMuxed, StoreData, Write;
    var m := StoreMask(size, addr);
    forall k: nat | k < 4 && Enabled(m, k)
      ensures Lane(StoreDataMuxed(addr, rs2.lo), k) == Lane(StoreData(addr, rs2).lo, k)
    {
      SameLane(size, addr, rs2, k);
    }
    MergeSame(Read(mem, addr / 4), StoreDataMuxed(addr, rs2.lo), StoreData(addr, rs2).lo, m);
    WriteSame(mem, addr, Double(StoreDataMuxed(addr, rs2.lo), 0), StoreData(addr, rs2), m);
  }

  lemma WriteSame(mem: Mem, addr: Address, d1: Double, d2: Double, m: Mask)
    requires !m.m4 && Merge(Read(mem, addr / 4), d1.lo, m) == Merge(Read(mem, addr / 4), d2.lo, m)
    ensures Write(mem, addr, d1, m) == Write(mem, addr, d2, m)
  {
  }

  lemma SameLane(size: Size, addr: Address, rs2: Double, k: nat)
    requires Aligned(addr, size) && size != D && k < 4 && Enabled(StoreMask(size, addr), k)
    ensures Lane(StoreDataMuxed(addr, rs2.lo), k) == Lane(StoreData(addr, rs2).lo, k)
  {
    hide Lane, Join;
    var w := rs2.lo;
    var b0, b1 := Lane(w, 0), Lane(w, 1);
    LanesOfJoin(b0, b0, b0, b0);
    LanesOfJoin(b0, b1, b0, b1);
    var odd, upper := addr % 2 == 1, addr / 2 % 2 == 1;
    LanesOfJoin(b0, if odd then b0 else b1, if upper then b0 else Lane(w, 2),
                if odd then b0 else if upper then b1 else Lane(w, 3));
  }

  lemma MergeSame(before: Word, d1: Word, d2: Word, m: Mask)
    requires forall k: nat :: k < 4 && Enabled(m, k) ==> Lane(d1, k) == Lane(d2, k)
    ensures Merge(before, d1, m) == Merge(before, d2, m)
  {
    hide Lane, Join;
    assert forall k: nat :: k < 4 ==> (Enabled(m, k) ==> Lane(d1, k) == Lane(d2, k));
  }

  // ---------------------------------------------------------------------------------------
  // The array, written in place
  // ---------------------------------------------------------------------------------------

  class DataMemory {
    const words: array<Word>

    function Contents(): Mem
      reads this, words
    {
      map i: nat | i < words.Length :: words[i]
    }

    constructor (words: array<Word>)
      ensures this.words == words
    {
      this.words := words;
    }

    /** DMemRData for an address whose word pair is in the array. */
    method Fetch(addr: Address) returns (data: Double)
      requires addr / 4 + 1 < words.Length
      ensures data == ReadPair(Contents(), addr)
    {
      data := Double(words[addr / 4], words[addr / 4 + 1]);
    }

    /** A rising edge: the enabled lanes change in place, what lies past the end is not written. */
    method Tick(addr: Address, data: Double, m: Mask)
      modifies words
      ensures forall i: nat :: i < words.Length ==> words[i] == Read(Write(old(Contents()), addr, data, m), i)
    {
      hide Merge;
      var index := addr / 4;
      if (m.m0 || m.m1 || m.m2 || m.m3) && index < words.Length {
        words[index] := Merge(words[index], data.lo, m);
      }
      if m.m4 && index + 1 < words.Length {
        words[index + 1] := data.hi;
      }
    }
  }
}
