/** The 33 by 33 bit signed multiplier behind MUL, MULH, MULHSU and MULHU. */
module Multiplier {
  import opened Arith

  type Unsigned = x: int | 0 <= x < 0x1_0000_0000

  datatype Op = MUL | MULH | MULHSU | MULHU      // funct3[1:0]

  predicate SignBit(x: Unsigned) { x >= 0x8000_0000 }

  function Signed(x: Unsigned): int { if SignBit(x) then x - 0x1_0000_0000 else x }

  /** The high word of a 64-bit product. */
  function High(n: int): Unsigned { n / 0x1_0000_0000 % 0x1_0000_0000 }

  function Low(n: int): Unsigned { n % 0x1_0000_0000 }

  /** E_aluOutM: each operand is sign-extended to 33 bits under its own condition. */
  function Multiply(op: Op, x: Unsigned, y: Unsigned): Unsigned {
    var a := if op.MULH? then Signed(x) else x;
    var b := if op.MULH? || op.MULHSU? then Signed(y) else y;
    if op.MUL? then Low(a * b) else High(a * b)
  }

  // ---------------------------------------------------------------------------------------
  // The products of the instruction set (unprivileged ISA, section 7.1)
  // ---------------------------------------------------------------------------------------

  /** A word read in two's complement. */
  function Number(x: Unsigned): int { if x < 0x8000_0000 then x else x - 0x1_0000_0000 }

  /** h is the upper half of the product n in 64 bits. */
  predicate IsHigh(n: int, h: int) {
    h * 0x1_0000_0000 <= n % 0x1_0000_0000_0000_0000 < (h + 1) * 0x1_0000_0000
  }

  /** MULHSU multiplies a signed rs1 by an unsigned rs2. */
  predicate IsProduct(op: Op, x: Unsigned, y: Unsigned, r: int) {
    && 0 <= r < 0x1_0000_0000
    && match op
       case MUL => (x * y - r) % 0x1_0000_0000 == 0
       case MULH => IsHigh(Number(x) * Number(y), r)
       case MULHSU => IsHigh(Number(x) * y, r)
       case MULHU => IsHigh(x * y, r)
  }

  /** There is one such word. */
  lemma ProductUnique(op: Op, x: Unsigned, y: Unsigned, r: int, r': int)
    requires IsProduct(op, x, y, r) && IsProduct(op, x, y, r')
    ensures r == r'
  {
    if op.MUL? {
      SameResidue(x * y, r, r');
    }
  }

  /**
   Three of the four instructions are right on every operand. MULHSU extends the sign of rs2
   instead of rs1, which gives the required word exactly when what each extension takes off
   the high word happens to be the same.
   */
  lemma MultiplyCorrect(op: Op, x: Unsigned, y: Unsigned)
    ensures IsProduct(op, x, y, Multiply(op, x, y)) <==>
      (op.MULHSU? ==> (if x >= 0x8000_0000 then y else 0) == (if y >= 0x8000_0000 then x else 0))
  {
    hide High, Low, IsHigh;
    var n: int := x * y;
    match op {
      case MUL => LowMeans(n);
      case MULH => HighMeans(Number(x) * Number(y));
      case MULHU => HighMeans(n);
      case MULHSU =>
        var p, q := if y >= 0x8000_0000 then x else 0, if x >= 0x8000_0000 then y else 0;
        Expand(x, y);
        Expand(y, x);
        assert x * y == y * x && Number(x) * y == y * Number(x);
        HighMeans(Number(x) * y);
        HighLess(n, p, q);
        if High(x * Number(y)) != High(Number(x) * y) {
          HighUnique(Number(x) * y, High(x * Number(y)), High(Number(x) * y));
        }
    }
  }

  lemma LowMeans(n: int)
    ensures (n - Low(n)) % 0x1_0000_0000 == 0
  {
    DivUnique(n - Low(n), 0x1_0000_0000, n / 0x1_0000_0000, 0);
  }

  lemma HighMeans(n: int)
    ensures IsHigh(n, High(n))
  {
    var w := 0x1_0000_0000;
    var q, m := n / (w * w), n % (w * w);
    assert m == m / w * w + m % w;
    DivUnique(n, w, q * w + m / w, m % w);
    DivUnique(n / w, w, q, m / w);
  }

  lemma HighUnique(n: int, h: int, h': int)
    requires IsHigh(n, h') && h != h'
    ensures !IsHigh(n, h)
  {
  }

  lemma Expand(x: Unsigned, y: Unsigned)
    ensures (x as int) * Number(y) == x * y - 0x1_0000_0000 * (if y >= 0x8000_0000 then x else 0)
  {
    if y >= 0x8000_0000 {
      assert (x as int) * (y - 0x1_0000_0000) == x * y - (x as int) * 0x1_0000_0000;
    }
  }

  lemma HighLess(n: int, p: Unsigned, q: Unsigned)
    ensures High(n - 0x1_0000_0000 * p) == High(n - 0x1_0000_0000 * q) <==> p == q
  {
    var w := 0x1_0000_0000;
    var h, l := n / w, n % w;
    DivUnique(n - w * p, w, h - p, l);
    DivUnique(n - w * q, w, h - q, l);
    SameResidue(h, p, q);
  }

  lemma SameResidue(h: int, p: Unsigned, q: Unsigned)
    ensures (h - p) % 0x1_0000_0000 == (h - q) % 0x1_0000_0000 <==> p == q
  {
  }

  /** For example: 2^31 times 1 has high word -1 as MULHSU, but this multiplier answers 0. */
  lemma MulhsuDiffers()
    ensures Multiply(MULHSU, 0x8000_0000, 1) == 0 && IsProduct(MULHSU, 0x8000_0000, 1, 0xFFFF_FFFF)
  {
  }
}
