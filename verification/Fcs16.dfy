/** The frame check sequence of HDLC: the table-driven CRC of crc.h (copied in DLMS_Gateway.c)
    against the bit-by-bit reflected polynomial 0x8408 of appendix C of RFC 1662. */
module Fcs16 {
  import opened Bytes

  // ---------- the table ----------

  const ROW_0: seq<bv16> := [0x0000, 0x1189, 0x2312, 0x329B, 0x4624, 0x57AD, 0x6536, 0x74BF,
                               0x8C48, 0x9DC1, 0xAF5A, 0xBED3, 0xCA6C, 0xDBE5, 0xE97E, 0xF8F7]
  const ROW_1: seq<bv16> := [0x1081, 0x0108, 0x3393, 0x221A, 0x56A5, 0x472C, 0x75B7, 0x643E,
                               0x9CC9, 0x8D40, 0xBFDB, 0xAE52, 0xDAED, 0xCB64, 0xF9FF, 0xE876]
  const ROW_2: seq<bv16> := [0x2102, 0x308B, 0x0210, 0x1399, 0x6726, 0x76AF, 0x4434, 0x55BD,
                               0xAD4A, 0xBCC3, 0x8E58, 0x9FD1, 0xEB6E, 0xFAE7, 0xC87C, 0xD9F5]
  const ROW_3: seq<bv16> := [0x3183, 0x200A, 0x1291, 0x0318, 0x77A7, 0x662E, 0x54B5, 0x453C,
                               0xBDCB, 0xAC42, 0x9ED9, 0x8F50, 0xFBEF, 0xEA66, 0xD8FD, 0xC974]
  const ROW_4: seq<bv16> := [0x4204, 0x538D, 0x6116, 0x709F, 0x0420, 0x15A9, 0x2732, 0x36BB,
                               0xCE4C, 0xDFC5, 0xED5E, 0xFCD7, 0x8868, 0x99E1, 0xAB7A, 0xBAF3]
  const ROW_5: seq<bv16> := [0x5285, 0x430C, 0x7197, 0x601E, 0x14A1, 0x0528, 0x37B3, 0x263A,
                               0xDECD, 0xCF44, 0xFDDF, 0xEC56, 0x98E9, 0x8960, 0xBBFB, 0xAA72]
  const ROW_6: seq<bv16> := [0x6306, 0x728F, 0x4014, 0x519D, 0x2522, 0x34AB, 0x0630, 0x17B9,
                               0xEF4E, 0xFEC7, 0xCC5C, 0xDDD5, 0xA96A, 0xB8E3, 0x8A78, 0x9BF1]
  const ROW_7: seq<bv16> := [0x7387, 0x620E, 0x5095, 0x411C, 0x35A3, 0x242A, 0x16B1, 0x0738,
                               0xFFCF, 0xEE46, 0xDCDD, 0xCD54, 0xB9EB, 0xA862, 0x9AF9, 0x8B70]
  const ROW_8: seq<bv16> := [0x8408, 0x9581, 0xA71A, 0xB693, 0xC22C, 0xD3A5, 0xE13E, 0xF0B7,
                               0x0840, 0x19C9, 0x2B52, 0x3ADB, 0x4E64, 0x5FED, 0x6D76, 0x7CFF]
  const ROW_9: seq<bv16> := [0x9489, 0x8500, 0xB79B, 0xA612, 0xD2AD, 0xC324, 0xF1BF, 0xE036,
                               0x18C1, 0x0948, 0x3BD3, 0x2A5A, 0x5EE5, 0x4F6C, 0x7DF7, 0x6C7E]
  const ROW_A: seq<bv16> := [0xA50A, 0xB483, 0x8618, 0x9791, 0xE32E, 0xF2A7, 0xC03C, 0xD1B5,
                               0x2942, 0x38CB, 0x0A50, 0x1BD9, 0x6F66, 0x7EEF, 0x4C74, 0x5DFD]
  const ROW_B: seq<bv16> := [0xB58B, 0xA402, 0x9699, 0x8710, 0xF3AF, 0xE226, 0xD0BD, 0xC134,
                               0x39C3, 0x284A, 0x1AD1, 0x0B58, 0x7FE7, 0x6E6E, 0x5CF5, 0x4D7C]
  const ROW_C: seq<bv16> := [0xC60C, 0xD785, 0xE51E, 0xF497, 0x8028, 0x91A1, 0xA33A, 0xB2B3,
                               0x4A44, 0x5BCD, 0x6956, 0x78DF, 0x0C60, 0x1DE9, 0x2F72, 0x3EFB]
  const ROW_D: seq<bv16> := [0xD68D, 0xC704, 0xF59F, 0xE416, 0x90A9, 0x8120, 0xB3BB, 0xA232,
                               0x5AC5, 0x4B4C, 0x79D7, 0x685E, 0x1CE1, 0x0D68, 0x3FF3, 0x2E7A]
  const ROW_E: seq<bv16> := [0xE70E, 0xF687, 0xC41C, 0xD595, 0xA12A, 0xB0A3, 0x8238, 0x93B1,
                               0x6B46, 0x7ACF, 0x4854, 0x59DD, 0x2D62, 0x3CEB, 0x0E70, 0x1FF9]
  const ROW_F: seq<bv16> := [0xF78F, 0xE606, 0xD49D, 0xC514, 0xB1AB, 0xA022, 0x92B9, 0x8330,
                               0x7BC7, 0x6A4E, 0x58D5, 0x495C, 0x3DE3, 0x2C6A, 0x1EF1, 0x0F78]

  /** The 256 words of the source's table, sixteen to a row. */
  const FCS16_TABLE: seq<seq<bv16>> :=
    [ROW_0, ROW_1, ROW_2, ROW_3, ROW_4, ROW_5, ROW_6, ROW_7,
     ROW_8, ROW_9, ROW_A, ROW_B, ROW_C, ROW_D, ROW_E, ROW_F]

  function Lookup(k: bv16): bv16
    requires k < 256
  {
    FCS16_TABLE[(k >> 4) as int][(k & 0xF) as int]
  }

  // ---------- the bit-by-bit register ----------

  function BitStep(r: bv16): bv16 { if r & 1 == 1 then (r >> 1) ^ 0x8408 else r >> 1 }

  function EightSteps(r: bv16): bv16 {
    BitStep(BitStep(BitStep(BitStep(BitStep(BitStep(BitStep(BitStep(r))))))))
  }

  /** Exclusive or, named so that the solver treats equal operands as equal results. */
  function Xor(x: bv16, y: bv16): bv16 { x ^ y }

  function Flag(b: bool): bv16 { if b then 1 else 0 }

  /** The register after shifting in `bits`, first bit first. */
  function ShiftIn(r: bv16, bits: seq<bool>): bv16
    decreases |bits|
  {
    if bits == [] then r else ShiftIn(BitStep(Xor(r, Flag(bits[0]))), bits[1..])
  }

  /** A byte in the lower half of a register. */
  function Octet(b: Byte): bv16 { (b as bv8) as bv16 }

  /** The bits of a byte in the order they are sent: least significant first. */
  function ByteBits(b: Byte): (bits: seq<bool>)
    ensures |bits| == 8
  {
    var w := Octet(b);
    [w & 1 == 1, w & 2 == 2, w & 4 == 4, w & 8 == 8, w & 16 == 16, w & 32 == 32, w & 64 == 64, w & 128 == 128]
  }

  function Bits(data: seq<Byte>): (bits: seq<bool>)
    ensures |bits| == 8 * |data|
  {
    if data == [] then [] else ByteBits(data[0]) + Bits(data[1..])
  }

  /** The register before it is complemented and swapped. */
  function Register(data: seq<Byte>): bv16 { ShiftIn(0xFFFF, Bits(data)) }

  function Swap(w: bv16): bv16 { (w >> 8) | (w << 8) }

  /** The frame check sequence: complemented register, least significant byte first on the line. */
  function Trailer(r: bv16): bv16 { Swap(!r) }

  function Fcs(data: seq<Byte>): nat { Trailer(Register(data)) as int }

  // ---------- the table agrees with eight single-bit steps ----------

  /** Eight steps on a register whose upper byte is clear, in closed form. */
  function Folded(k: bv16): bv16 {
    (((k ^ (k << 4)) & 0xFF) << 8) ^ (((k ^ (k << 4)) & 0xFF) << 3) ^ (((k ^ (k << 4)) & 0xFF) >> 4)
  }

  lemma FoldedIsEightSteps(k: bv16)
    requires k < 256
    ensures EightSteps(k) == Folded(k)
  {
  }

  lemma LowerEntry(k: bv16)
    requires k < 128
    ensures Lookup(k) == Folded(k)
  {
  }

  lemma UpperEntry(k: bv16)
    requires 128 <= k < 256
    ensures Lookup(k) == Folded(k)
  {
  }

  lemma TableEntry(k: bv16)
    requires k < 256
    ensures Lookup(k) == EightSteps(k)
  {
    hide Lookup, EightSteps, Folded;
    FoldedIsEightSteps(k);
    if k < 128 { LowerEntry(k); } else { UpperEntry(k); }
  }

  /** One table-driven step of the source is eight single-bit steps. */
  lemma TableStep(r: bv16, w: bv16)
    requires w < 256
    ensures (r >> 8) ^ Lookup((r ^ w) & 0xFF) == EightSteps(Xor(r, w))
  {
    hide Lookup, EightSteps;
    TableStepOf(r, w, Xor(r, w));
  }

  lemma TableStepOf(r: bv16, w: bv16, x: bv16)
    requires w < 256 && x == r ^ w
    ensures (r >> 8) ^ Lookup(x & 0xFF) == EightSteps(x)
  {
    hide Lookup, EightSteps;
    TableEntry(x & 0xFF);
    SplitStep(x);
    LowByteOnly(r, w, x);
  }

  lemma LowByteOnly(r: bv16, w: bv16, x: bv16)
    requires w < 256 && x == r ^ w
    ensures x >> 8 == r >> 8
  {
  }

  lemma SplitStep(x: bv16)
    ensures EightSteps(x) == (x >> 8) ^ EightSteps(x & 0xFF)
  {
    FoldedIsEightSteps(x & 0xFF);
  }

  // ---------- bits shifted in one by one against bits folded in at once ----------

  /** A bit placed below the others. */
  function Below(f: bv16, p: bv16): bv16 { f | (p << 1) }

  /** The bits as a register value, first bit lowest. */
  function Pack(bits: seq<bool>): bv16
    decreases |bits|
  {
    if bits == [] then 0 else Below(Flag(bits[0]), Pack(bits[1..]))
  }

  function Steps(r: bv16, n: nat): bv16
    decreases n
  {
    if n == 0 then r else Steps(BitStep(r), n - 1)
  }

  function Ones(n: nat): bv16 { if n == 0 then 0 else Below(1, Ones(n - 1)) }

  lemma OnesBelow(n: nat)
    requires n <= 15
    ensures Ones(n) <= 0x7FFF
  {
    assert Ones(1) == 1;
    assert Ones(2) == 3;
    assert Ones(3) == 7;
    assert Ones(4) == 0xF;
    assert Ones(5) == 0x1F;
    assert Ones(6) == 0x3F;
    assert Ones(7) == 0x7F;
    assert Ones(8) == 0xFF;
    assert Ones(9) == 0x1FF;
    assert Ones(10) == 0x3FF;
    assert Ones(11) == 0x7FF;
    assert Ones(12) == 0xFFF;
    assert Ones(13) == 0x1FFF;
    assert Ones(14) == 0x3FFF;
    assert Ones(15) == 0x7FFF;
  }

  /** No bit of `p` outside `mask`. */
  predicate Within(p: bv16, mask: bv16) { p & !mask == 0 }

  lemma WithinNext(f: bool, p: bv16, mask: bv16)
    requires Within(p, mask)
    ensures Within(Below(Flag(f), p), Below(1, mask))
  {
    if f { Shifted(1, p, mask); } else { Shifted(0, p, mask); }
  }

  lemma Shifted(f: bv16, p: bv16, mask: bv16)
    requires f <= 1 && p & !mask == 0
    ensures (f | (p << 1)) & !(1 | (mask << 1)) == 0
  {
  }

  lemma WithinBound(p: bv16, mask: bv16)
    requires Within(p, mask) && mask <= 0x7FFF
    ensures p <= 0x7FFF
  {
  }

  lemma {:induction false} PackWithin(bits: seq<bool>)
    ensures Within(Pack(bits), Ones(|bits|))
    decreases |bits|
  {
    if bits == [] {
    } else {
      hide Within, Flag, Below;
      PackWithin(bits[1..]);
      WithinNext(bits[0], Pack(bits[1..]), Ones(|bits| - 1));
    }
  }

  lemma PackTopClear(bits: seq<bool>)
    requires |bits| <= 15
    ensures Pack(bits) <= 0x7FFF
  {
    hide Within, Pack, Ones;
    PackWithin(bits);
    OnesBelow(|bits|);
    WithinBound(Pack(bits), Ones(|bits|));
  }

  lemma StepAbsorbs(x: bv16, p: bv16, w: bv16)
    requires p <= 0x7FFF && w == x ^ (p << 1)
    ensures BitStep(x) ^ p == BitStep(w)
  {
  }

  lemma FlagApart(r: bv16, f: bv16, p: bv16, q: bv16, x: bv16, w: bv16)
    requires f <= 1 && q == f | (p << 1) && x == Xor(r, f) && w == Xor(r, q)
    ensures w == x ^ (p << 1)
  {
  }

  lemma XorIs(x: bv16, y: bv16)
    ensures Xor(x, y) == x ^ y
  {
  }

  /** One bit shifted in before the others are folded in. */
  lemma Absorb(r: bv16, f: bv16, p: bv16, q: bv16, x: bv16, w: bv16)
    requires f <= 1 && p <= 0x7FFF && q == f | (p << 1) && x == Xor(r, f) && w == Xor(r, q)
    ensures Xor(BitStep(x), p) == BitStep(w)
  {
    hide BitStep, Xor;
    FlagApart(r, f, p, q, x, w);
    StepAbsorbs(x, p, w);
    XorIs(BitStep(x), p);
  }

  /** Up to sixteen bits shifted in one at a time are the same as all of them folded in first. */
  lemma {:induction false} ShiftInPacked(r: bv16, bits: seq<bool>)
    requires |bits| <= 16
    ensures ShiftIn(r, bits) == Steps(Xor(r, Pack(bits)), |bits|)
    decreases |bits|
  {
    if bits == [] {
    } else {
      var f, p, q := Flag(bits[0]), Pack(bits[1..]), Pack(bits);
      PackTopClear(bits[1..]);
      Absorb(r, f, p, q, Xor(r, f), Xor(r, q));
      ShiftInPacked(BitStep(Xor(r, f)), bits[1..]);
    }
  }

  lemma PackFour(c: seq<bool>)
    requires |c| >= 4
    ensures Pack(c) == Below(Flag(c[0]), Below(Flag(c[1]), Below(Flag(c[2]), Below(Flag(c[3]), Pack(c[4..])))))
  {
    hide Below, Flag;
    assert c[1..][1..] == c[2..] && c[2..][1..] == c[3..] && c[3..][1..] == c[4..];
  }

  /** Eight bits, lowest first. */
  function Assembled(a: bool, b: bool, c: bool, d: bool, e: bool, f: bool, g: bool, h: bool): bv16 {
    Below(Flag(a), Below(Flag(b), Below(Flag(c), Below(Flag(d), Below(Flag(e), Below(Flag(f), Below(Flag(g), Below(Flag(h), 0))))))))
  }

  lemma ByteOfBits(w: bv16)
    requires w < 256
    ensures w == Assembled(w & 1 == 1, w & 2 == 2, w & 4 == 4, w & 8 == 8, w & 16 == 16, w & 32 == 32, w & 64 == 64, w & 128 == 128)
  {
  }

  lemma PackEight(c: seq<bool>)
    requires |c| == 8
    ensures Pack(c) == Assembled(c[0], c[1], c[2], c[3], c[4], c[5], c[6], c[7])
  {
    hide Below, Flag;
    PackFour(c);
    PackFour(c[4..]);
    assert c[4..][4..] == [];
  }

  lemma OctetBelow(b: Byte)
    ensures Octet(b) < 256
  {
  }

  lemma PackByte(b: Byte)
    ensures Pack(ByteBits(b)) == Octet(b)
  {
    hide Pack, Assembled, Octet;
    OctetBelow(b);
    PackEight(ByteBits(b));
    ByteOfBits(Octet(b));
  }

  lemma StepsEight(x: bv16)
    ensures Steps(x, 8) == EightSteps(x)
  {
    assert Steps(x, 8) == Steps(BitStep(BitStep(BitStep(BitStep(x)))), 4);
  }

  lemma StepIsEightBits(r: bv16, b: Byte)
    ensures ShiftIn(r, ByteBits(b)) == EightSteps(Xor(r, Octet(b)))
  {
    PackByte(b);
    ShiftInPacked(r, ByteBits(b));
    StepsEight(Xor(r, Octet(b)));
  }

  // ---------- concatenation ----------

  lemma {:induction false} BitsOfAppend(a: seq<Byte>, b: seq<Byte>)
    ensures Bits(a + b) == Bits(a) + Bits(b)
  {
    if a == [] {
      assert a + b == b;
    } else {
      BitsOfAppend(a[1..], b);
      assert (a + b)[0] == a[0] && (a + b)[1..] == a[1..] + b;
      Reassociate(ByteBits(a[0]), Bits(a[1..]), Bits(b));
    }
  }

  lemma Reassociate<T>(x: seq<T>, y: seq<T>, z: seq<T>)
    ensures (x + y) + z == x + (y + z)
  {
  }

  lemma {:induction false} ShiftInAppend(r: bv16, a: seq<bool>, b: seq<bool>)
    ensures ShiftIn(r, a + b) == ShiftIn(ShiftIn(r, a), b)
    decreases |a|
  {
    if a == [] {
      assert a + b == b;
    } else {
      ShiftInAppend(BitStep(Xor(r, Flag(a[0]))), a[1..], b);
      assert (a + b)[1..] == a[1..] + b;
    }
  }

  lemma RegisterSnoc(data: seq<Byte>, b: Byte)
    ensures Register(data + [b]) == EightSteps(Xor(Register(data), Octet(b)))
  {
    BitsOfAppend(data, [b]);
    assert Bits([b]) == ByteBits(b);
    ShiftInAppend(0xFFFF, Bits(data), ByteBits(b));
    StepIsEightBits(Register(data), b);
  }

  // ---------- the bits of a byte and the start value ----------

  predicate IsOdd(n: int) { n % 2 == 1 }

  /** The bit of weight `w` counts whole multiples of it. */
  predicate BitOf(b: Byte, w: int)
    requires w > 0
  {
    IsOdd(b / w)
  }

  /** The bits of a byte by their weights, the lowest first. */
  function WeightBits(b: Byte): seq<bool> {
    [BitOf(b, 1), BitOf(b, 2), BitOf(b, 4), BitOf(b, 8), BitOf(b, 16), BitOf(b, 32), BitOf(b, 64), BitOf(b, 128)]
  }

  lemma BitsByWeight(b: Byte)
    ensures ByteBits(b) == WeightBits(b)
  {
    LowerWeights(b);
    UpperWeights(b);
  }

  lemma LowerWeights(b: Byte)
    ensures Octet(b) & 1 == 1 <==> b % 2 == 1
    ensures Octet(b) & 2 == 2 <==> b / 2 % 2 == 1
    ensures Octet(b) & 4 == 4 <==> b / 4 % 2 == 1
    ensures Octet(b) & 8 == 8 <==> b / 8 % 2 == 1
  {
  }

  lemma UpperWeights(b: Byte)
    ensures Octet(b) & 16 == 16 <==> b / 16 % 2 == 1
    ensures Octet(b) & 32 == 32 <==> b / 32 % 2 == 1
    ensures Octet(b) & 64 == 64 <==> b / 64 % 2 == 1
    ensures Octet(b) & 128 == 128 <==> b / 128 % 2 == 1
  {
  }

  function Complement(bits: seq<bool>): (c: seq<bool>)
    ensures |c| == |bits| && forall i :: 0 <= i < |bits| ==> c[i] == !bits[i]
  {
    if bits == [] then [] else [!bits[0]] + Complement(bits[1..])
  }

  lemma Opposite(q: int, n: int)
    requires n % 2 == 1
    ensures IsOdd(n - q) == !IsOdd(q)
  {
  }

  lemma BitOpposite(b: Byte, w: int, n: int)
    requires w > 0 && n % 2 == 1 && (255 - b) / w == n - b / w
    ensures BitOf(255 - b, w) == !BitOf(b, w)
  {
    hide IsOdd;
    Opposite(b / w, n);
  }

  lemma LowerOpposite(b: Byte)
    ensures BitOf(255 - b, 1) == !BitOf(b, 1) && BitOf(255 - b, 2) == !BitOf(b, 2)
    ensures BitOf(255 - b, 4) == !BitOf(b, 4) && BitOf(255 - b, 8) == !BitOf(b, 8)
  {
    hide BitOf;
    BitOpposite(b, 1, 255);
    BitOpposite(b, 2, 127);
    BitOpposite(b, 4, 63);
    BitOpposite(b, 8, 31);
  }

  lemma UpperOpposite(b: Byte)
    ensures BitOf(255 - b, 16) == !BitOf(b, 16) && BitOf(255 - b, 32) == !BitOf(b, 32)
    ensures BitOf(255 - b, 64) == !BitOf(b, 64) && BitOf(255 - b, 128) == !BitOf(b, 128)
  {
    hide BitOf;
    BitOpposite(b, 16, 15);
    BitOpposite(b, 32, 7);
    BitOpposite(b, 64, 3);
    BitOpposite(b, 128, 1);
  }

  lemma WeightsComplement(b: Byte)
    ensures WeightBits(255 - b) == Complement(WeightBits(b))
  {
    hide BitOf, Complement;
    LowerOpposite(b);
    UpperOpposite(b);
    EightComplement(BitOf(b, 1), BitOf(b, 2), BitOf(b, 4), BitOf(b, 8), BitOf(b, 16), BitOf(b, 32), BitOf(b, 64), BitOf(b, 128));
  }

  lemma EightComplement(a: bool, b: bool, c: bool, d: bool, e: bool, f: bool, g: bool, h: bool)
    ensures [!a, !b, !c, !d, !e, !f, !g, !h] == Complement([a, b, c, d, e, f, g, h])
  {
    hide Complement;
  }

  lemma ByteComplement(b: Byte)
    ensures ByteBits(255 - b) == Complement(ByteBits(b))
  {
    hide ByteBits, WeightBits, Complement;
    BitsByWeight(b);
    BitsByWeight(255 - b);
    WeightsComplement(b);
  }

  lemma BelowComplement(f: bool, p: bv16, m: bv16)
    ensures Below(Flag(!f), Xor(m, p)) == Xor(Below(1, m), Below(Flag(f), p))
  {
    if f { BelowApart(0, 1, p, m); } else { BelowApart(1, 0, p, m); }
  }

  lemma BelowApart(e: bv16, f: bv16, p: bv16, m: bv16)
    requires e <= 1 && f == 1 - e
    ensures e | ((m ^ p) << 1) == (1 | (m << 1)) ^ (f | (p << 1))
  {
  }

  lemma {:induction false} PackComplement(bits: seq<bool>)
    ensures Pack(Complement(bits)) == Xor(Ones(|bits|), Pack(bits))
    decreases |bits|
  {
    if bits == [] {
    } else {
      hide Below, Flag, Xor;
      PackComplement(bits[1..]);
      assert Complement(bits)[1..] == Complement(bits[1..]);
      BelowComplement(bits[0], Pack(bits[1..]), Ones(|bits| - 1));
    }
  }

  lemma SixteenOnes()
    ensures Ones(16) == 0xFFFF
  {
    assert Ones(4) == 0xF;
    assert Ones(8) == 0xFF;
    assert Ones(12) == 0xFFF;
  }

  lemma FromZero(x: bv16)
    ensures Xor(0, x) == x
  {
  }

  /** Starting from 0xFFFF is starting from zero with the first sixteen bits complemented. */
  lemma PresetBits(bits: seq<bool>)
    requires |bits| >= 16
    ensures ShiftIn(0xFFFF, bits) == ShiftIn(0, Complement(bits[..16]) + bits[16..])
  {
    hide ShiftIn, Steps, Pack, Ones, Xor, Complement;
    var head, tail := bits[..16], bits[16..];
    assert bits == head + tail;
    ShiftInAppend(0xFFFF, head, tail);
    ShiftInAppend(0, Complement(head), tail);
    ShiftInPacked(0xFFFF, head);
    ShiftInPacked(0, Complement(head));
    PackComplement(head);
    SixteenOnes();
    FromZero(Xor(0xFFFF, Pack(head)));
  }

  lemma FirstTwo(a: Byte, b: Byte, rest: seq<Byte>)
    ensures Bits([a, b] + rest) == (ByteBits(a) + ByteBits(b)) + Bits(rest)
  {
    hide ByteBits;
    assert ([a, b] + rest)[1..] == [b] + rest && ([b] + rest)[1..] == rest;
    Reassociate(ByteBits(a), ByteBits(b), Bits(rest));
  }

  /** The start value as a law: the register that a string leaves is the one that a register of zeros is
      left with by the string with its first two bytes complemented. */
  lemma Preset(data: seq<Byte>)
    requires |data| >= 2
    ensures Register(data) == ShiftIn(0, Bits([255 - data[0], 255 - data[1]] + data[2..]))
  {
    hide ByteBits, ShiftIn, Bits, Complement;
    var a, b, rest := data[0], data[1], data[2..];
    assert data == [a, b] + rest;
    FirstTwo(a, b, rest);
    FirstTwo(255 - a, 255 - b, rest);
    PresetBits(Bits(data));
    ByteComplement(a);
    ByteComplement(b);
    Sixteen(ByteBits(a), ByteBits(b), Bits(rest));
  }

  lemma Sixteen(x: seq<bool>, y: seq<bool>, rest: seq<bool>)
    requires |x| == 8 && |y| == 8
    ensures (x + y + rest)[16..] == rest && Complement((x + y + rest)[..16]) == Complement(x) + Complement(y)
  {
    hide Complement;
    assert (x + y + rest)[..16] == x + y;
  }

  lemma NextRegister(data: seq<Byte>, b: Byte, r: bv16)
    requires Register(data) == r
    ensures Register(data + [b]) == EightSteps(Xor(r, Octet(b)))
  {
    RegisterSnoc(data, b);
  }

  /** Nothing at all has the FCS zero; the nine digits from one to nine have 0x6E90, the check value of
      this code with its bytes in the order of the line. */
  lemma CheckValues()
    ensures Fcs([]) == 0
    ensures Fcs([0x31, 0x32, 0x33, 0x34, 0x35, 0x36, 0x37, 0x38, 0x39]) == 0x6E90
  {
    hide Register;
    EmptyRegister();
    NextRegister([], 0x31, 0xFFFF);
    assert [] + [0x31] == [0x31];
    var three := [0x31] + [0x32] + [0x33];
    assert Register(three) == 0x634B by {
      NextRegister([0x31], 0x32, 0x2F8D);
      NextRegister([0x31] + [0x32], 0x33, 0x4D53);
    }
    var six := three + [0x34] + [0x35] + [0x36];
    assert Register(six) == 0x198D by {
      NextRegister(three, 0x34, 0x634B);
      NextRegister(three + [0x34], 0x35, 0x8B13);
      NextRegister(three + [0x34] + [0x35], 0x36, 0x44BF);
    }
    var nine := six + [0x37] + [0x38] + [0x39];
    assert Register(nine) == 0x6F91 by {
      NextRegister(six, 0x37, 0x198D);
      NextRegister(six + [0x37], 0x38, 0x1AC8);
      NextRegister(six + [0x37] + [0x38], 0x39, 0xF795);
    }
    assert nine == [0x31, 0x32, 0x33, 0x34, 0x35, 0x36, 0x37, 0x38, 0x39];
  }

  lemma EmptyRegister()
    ensures Register([]) == 0xFFFF
  {
  }

  // ---------- the table-driven loop ----------

  /** countCRC: the FCS of `count` bytes from `index` on. */
  method CountCrc(buff: array<Byte>, index: nat, count: nat) returns (fcs: nat)
    requires index + count <= buff.Length && count <= 0xFFFF
    ensures fcs == Fcs(buff[index..index + count])
  {
    var fcs16: bv16 := 0xFFFF;
    var pos := 0;
    while pos < count
      invariant 0 <= pos <= count
      invariant fcs16 == Register(buff[index..index + pos])
    {
      var w := Octet(buff[index + pos]);
      TableStep(fcs16, w);
      RegisterSnoc(buff[index..index + pos], buff[index + pos]);
      assert buff[index..index + pos] + [buff[index + pos]] == buff[index..index + pos + 1];
      fcs16 := (fcs16 >> 8) ^ Lookup((fcs16 ^ w) & 0xFF);
      pos := pos + 1;
    }
    fcs := Trailer(fcs16) as int;
  }

  // ---------- the receiver's check ----------

  const GOOD_FCS: bv16 := 0xF0B8

  lemma SplitWord(w: bv16, hi: bv8, lo: bv8)
    requires hi == (w >> 8) as bv8 && lo == (w & 0xFF) as bv8
    ensures w as int == 256 * (hi as int) + lo as int && 0 <= hi as int < 256 && 0 <= lo as int < 256
    ensures hi as bv16 == w >> 8 && lo as bv16 == w & 0xFF
  {
  }

  lemma SameOctet(b: Byte, v: bv8)
    requires b == v as int
    ensures b as bv8 == v
  {
  }

  lemma DivMod(n: nat, h: nat, l: nat)
    requires n == 256 * h + l && l < 256
    ensures n / 256 == h && n % 256 == l
  {
  }

  lemma OctetOf(b: Byte, v: bv8)
    requires b == v as int
    ensures Octet(b) == v as bv16
  {
    SameOctet(b, v);
  }

  lemma HalvesOf(n: nat, h: Byte, l: Byte, hi: bv8, lo: bv8)
    requires h == n / 256 && l == n % 256 && n == 256 * (hi as int) + lo as int && 0 <= lo as int < 256 && 0 <= hi as int
    ensures h == hi as int && l == lo as int
  {
    DivMod(n, hi as int, lo as int);
  }

  function UpperHalf(w: bv16): bv16 { w >> 8 }

  function LowerHalf(w: bv16): bv16 { w & 0xFF }

  /** The two bytes of a word, taken as numbers and put back into the register. */
  lemma Halves(w: bv16, n: nat, h: Byte, l: Byte)
    requires n == w as int && h == n / 256 && l == n % 256
    ensures Octet(h) == UpperHalf(w) && Octet(l) == LowerHalf(w)
  {
    var hi: bv8 :| hi == (w >> 8) as bv8;
    var lo: bv8 :| lo == (w & 0xFF) as bv8;
    SplitWord(w, hi, lo);
    HalvesOf(n, h, l, hi, lo);
    OctetOf(h, hi);
    OctetOf(l, lo);
  }

  lemma ResidueBits(r: bv16, w: bv16, a: bv16, b: bv16, x: bv16, y: bv16, z: bv16)
    requires w == Trailer(r) && a == UpperHalf(w) && b == LowerHalf(w)
    requires x == Xor(r, a) && y == EightSteps(x) && z == Xor(y, b)
    ensures EightSteps(z) == GOOD_FCS
  {
  }

  function AfterTwo(r: bv16, h: Byte, l: Byte): bv16 {
    EightSteps(Xor(EightSteps(Xor(r, Octet(h))), Octet(l)))
  }

  lemma RegisterOfTrailer(data: seq<Byte>, h: Byte, l: Byte)
    ensures Register(data + [h, l]) == AfterTwo(Register(data), h, l)
  {
    RegisterSnoc(data, h);
    RegisterSnoc(data + [h], l);
    assert data + [h] + [l] == data + [h, l];
  }

  lemma ResidueOfTrailer(r: bv16, n: nat, h: Byte, l: Byte)
    requires n == Trailer(r) as int && h == n / 256 && l == n % 256
    ensures AfterTwo(r, h, l) == GOOD_FCS
  {
    var w := Trailer(r);
    Halves(w, n, h, l);
    ResidueBits(r, w, Octet(h), Octet(l), Xor(r, Octet(h)), EightSteps(Xor(r, Octet(h))),
                Xor(EightSteps(Xor(r, Octet(h))), Octet(l)));
  }

  lemma FcsIsWord(data: seq<Byte>, n: nat)
    requires n == Fcs(data)
    ensures n < 65536
  {
  }

  lemma HalvesOfWord(n: nat)
    requires n < 65536
    ensures Hi(n) == n / 256 && Lo(n) == n % 256
  {
  }

  lemma ResidueOfFcs(data: seq<Byte>, n: nat, h: Byte, l: Byte)
    requires n == Fcs(data) && h == Hi(n) && l == Lo(n)
    ensures AfterTwo(Register(data), h, l) == GOOD_FCS
  {
    FcsIsWord(data, n);
    HalvesOfWord(n);
    ResidueOfTrailer(Register(data), n, h, l);
  }

  /** Appending the two bytes that are sent always leaves the register at the good-FCS value. */
  lemma GoodResidue(data: seq<Byte>)
    ensures Register(data + [Hi(Fcs(data)), Lo(Fcs(data))]) == GOOD_FCS
  {
    ResidueOfFcs(data, Fcs(data), Hi(Fcs(data)), Lo(Fcs(data)));
    RegisterOfTrailer(data, Hi(Fcs(data)), Lo(Fcs(data)));
  }

  // ---------- detection of errors confined to sixteen consecutive bits ----------

  /** Where two bit strings of one length differ. */
  function Difference(a: seq<bool>, b: seq<bool>): (d: seq<bool>)
    requires |a| == |b|
    ensures |d| == |a|
  {
    seq(|a|, i requires 0 <= i < |a| => a[i] != b[i])
  }

  lemma XorComm(x: bv16, y: bv16)
    ensures Xor(x, y) == Xor(y, x)
  {
  }

  lemma XorAssoc(x: bv16, y: bv16, z: bv16)
    ensures Xor(Xor(x, y), z) == Xor(x, Xor(y, z))
  {
  }

  lemma XorExchange(x: bv16, f: bv16, y: bv16, g: bv16)
    ensures Xor(Xor(x, f), Xor(y, g)) == Xor(Xor(x, y), Xor(f, g))
  {
    XorAssoc(x, f, Xor(y, g));
    XorAssoc(f, y, g);
    XorComm(f, y);
    XorAssoc(y, f, g);
    XorAssoc(x, y, Xor(f, g));
  }

  lemma XorOfFlags(x: bv16, y: bv16, p: bool, q: bool)
    ensures Xor(Xor(x, Flag(p)), Xor(y, Flag(q))) == Xor(Xor(x, y), Flag(p != q))
  {
    XorExchange(x, Flag(p), y, Flag(q));
    assert Xor(Flag(p), Flag(q)) == Flag(p != q);
  }

  function Halved(r: bv16): bv16 { r >> 1 }

  function Feedback(r: bv16): bv16 { if r & 1 == 1 then 0x8408 else 0 }

  lemma BitStepParts(r: bv16)
    ensures BitStep(r) == Xor(Halved(r), Feedback(r))
  {
    if r & 1 == 1 {
      assert Feedback(r) == 0x8408;
    } else {
      assert Feedback(r) == 0;
    }
  }

  lemma HalvedLinear(u: bv16, v: bv16, w: bv16)
    requires w == Xor(u, v)
    ensures Halved(w) == Xor(Halved(u), Halved(v))
  {
  }

  lemma FeedbackLinear(u: bv16, v: bv16, w: bv16)
    requires w == Xor(u, v)
    ensures Feedback(w) == Xor(Feedback(u), Feedback(v))
  {
  }

  lemma BitStepLinear(u: bv16, v: bv16)
    ensures Xor(BitStep(u), BitStep(v)) == BitStep(Xor(u, v))
  {
    BitStepParts(u);
    BitStepParts(v);
    BitStepParts(Xor(u, v));
    HalvedLinear(u, v, Xor(u, v));
    FeedbackLinear(u, v, Xor(u, v));
    XorExchange(Halved(u), Feedback(u), Halved(v), Feedback(v));
  }

  /** The register is linear: registers differ by what the difference of the inputs leaves. */
  lemma {:induction false} ShiftInLinear(x: bv16, y: bv16, a: seq<bool>, b: seq<bool>)
    requires |a| == |b|
    ensures Xor(ShiftIn(x, a), ShiftIn(y, b)) == ShiftIn(Xor(x, y), Difference(a, b))
    decreases |a|
  {
    var d := Difference(a, b);
    if a != [] {
      var f, g, h := Flag(a[0]), Flag(b[0]), Flag(d[0]);
      XorOfFlags(x, y, a[0], b[0]);
      BitStepLinear(Xor(x, f), Xor(y, g));
      assert d[1..] == Difference(a[1..], b[1..]);
      ShiftInLinear(BitStep(Xor(x, f)), BitStep(Xor(y, g)), a[1..], b[1..]);
    }
  }

  lemma XorZero(x: bv16, f: bv16)
    ensures Xor(x, 0) == x && Xor(x, x) == 0
    ensures Xor(0, f) == f
  {
  }

  lemma BitStepZero(x: bv16)
    ensures BitStep(x) == 0 <==> x == 0
  {
  }

  /** Zero bits neither create nor cancel a difference. */
  lemma {:induction false} ZeroBits(r: bv16, bits: seq<bool>)
    requires forall i :: 0 <= i < |bits| ==> !bits[i]
    ensures ShiftIn(r, bits) == 0 <==> r == 0
    decreases |bits|
  {
    if bits != [] {
      XorZero(r, 0);
      BitStepZero(r);
      ZeroBits(BitStep(r), bits[1..]);
    }
  }

  lemma {:induction false} StepsZero(r: bv16, n: nat)
    ensures Steps(r, n) == 0 <==> r == 0
    decreases n
  {
    if n != 0 {
      BitStepZero(r);
      StepsZero(BitStep(r), n - 1);
    }
  }

  lemma PackZeroStep(f: bv16, p: bv16, q: bv16)
    requires p <= 0x7FFF && q == f | (p << 1) && q == 0
    ensures f == 0 && p == 0
  {
  }

  lemma {:induction false} PackZero(bits: seq<bool>)
    requires |bits| <= 16 && Pack(bits) == 0
    ensures forall i :: 0 <= i < |bits| ==> !bits[i]
    decreases |bits|
  {
    if bits != [] {
      PackTopClear(bits[1..]);
      PackZeroStep(Flag(bits[0]), Pack(bits[1..]), Pack(bits));
      PackZero(bits[1..]);
      assert !bits[0];
      assert forall i :: 1 <= i < |bits| ==> bits[i] == bits[1..][i - 1];
    }
  }

  lemma ZerosAround(before: seq<bool>, window: seq<bool>, after: seq<bool>)
    requires forall i :: 0 <= i < |before| ==> !before[i]
    requires forall i :: 0 <= i < |after| ==> !after[i]
    requires ShiftIn(0, before + (window + after)) == 0
    ensures ShiftIn(0, window) == 0
  {
    ShiftInAppend(0, before, window + after);
    ZeroBits(0, before);
    ShiftInAppend(0, window, after);
    ZeroBits(ShiftIn(0, window), after);
  }

  lemma ShortBurst(window: seq<bool>)
    requires |window| <= 16 && ShiftIn(0, window) == 0
    ensures forall i :: 0 <= i < |window| ==> !window[i]
  {
    ShiftInPacked(0, window);
    XorZero(0, Pack(window));
    StepsZero(Pack(window), |window|);
    PackZero(window);
  }

  lemma Cut(d: seq<bool>, lo: nat, hi: nat)
    requires lo <= hi <= |d|
    ensures d == d[..lo] + (d[lo..hi] + d[hi..])
  {
  }

  /** A nonempty difference confined to sixteen consecutive bits leaves a nonzero register. */
  lemma BurstLeavesTrace(d: seq<bool>, k: nat)
    requires forall i :: 0 <= i < |d| && !(k <= i < k + 16) ==> !d[i]
    requires ShiftIn(0, d) == 0
    ensures forall i :: 0 <= i < |d| ==> !d[i]
  {
    var lo := if k <= |d| then k else |d|;
    var hi := if k + 16 <= |d| then k + 16 else |d|;
    Cut(d, lo, hi);
    var before, window, after := d[..lo], d[lo..hi], d[hi..];
    ZerosAround(before, window, after);
    ShortBurst(window);
    forall i | lo <= i < hi ensures !d[i] {
      assert !window[i - lo];
    }
  }

  lemma SameBits(a: Byte, b: Byte)
    requires ByteBits(a) == ByteBits(b)
    ensures a == b
  {
    PackByte(a);
    PackByte(b);
    OctetInjective(a, b);
  }

  lemma OctetInjective(a: Byte, b: Byte)
    requires Octet(a) == Octet(b)
    ensures a == b
  {
    ByteAsWord(a);
    ByteAsWord(b);
  }

  lemma NextValue(u: bv8)
    requires u < 255
    ensures (u + 1) as int == u as int + 1
  {
  }

  lemma LastValue(u: bv8)
    requires u as int < 255
    ensures u < 255
  {
  }

  /** The bit vector of a byte, found by counting up. */
  lemma {:induction false} ValueOfByte(b: Byte) returns (v: bv8)
    ensures v as int == b
    decreases b
  {
    if b == 0 {
      v := 0;
    } else {
      var u := ValueOfByte(b - 1);
      LastValue(u);
      NextValue(u);
      v := u + 1;
    }
  }

  lemma ByteAsWord(b: Byte)
    ensures (b as bv8) as int == b
  {
    var v := ValueOfByte(b);
    SameOctet(b, v);
  }

  lemma {:induction false} BitsInjective(a: seq<Byte>, b: seq<Byte>)
    requires Bits(a) == Bits(b)
    ensures a == b
  {
    if a != [] && b != [] {
      assert ByteBits(a[0]) == Bits(a)[..8] == Bits(b)[..8] == ByteBits(b[0]);
      assert Bits(a[1..]) == Bits(a)[8..] == Bits(b)[8..] == Bits(b[1..]);
      SameBits(a[0], b[0]);
      BitsInjective(a[1..], b[1..]);
      assert a == [a[0]] + a[1..] && b == [b[0]] + b[1..];
    }
  }

  /** `a` and `b` carry the same bits except inside the sixteen-bit window that starts at bit `k`. */
  ghost predicate DifferInBurst(a: seq<Byte>, b: seq<Byte>, k: nat) {
    |a| == |b| &&
    forall i :: 0 <= i < 8 * |a| && !(k <= i < k + 16) ==> Bits(a)[i] == Bits(b)[i]
  }

  /** Equal registers after such strings mean equal strings. */
  lemma BurstRegister(a: seq<Byte>, b: seq<Byte>, k: nat)
    requires DifferInBurst(a, b, k) && Register(a) == Register(b)
    ensures a == b
  {
    var d := Difference(Bits(a), Bits(b));
    ShiftInLinear(0xFFFF, 0xFFFF, Bits(a), Bits(b));
    XorZero(0xFFFF, 0);
    XorZero(Register(a), 0);
    BurstLeavesTrace(d, k);
    forall i | 0 <= i < 8 * |a| ensures Bits(a)[i] == Bits(b)[i] {
      assert !d[i];
    }
    BitsInjective(a, b);
  }

  lemma WordInjective(u: bv16, v: bv16)
    requires u as int == v as int
    ensures u == v
  {
    assert (u as int) as bv16 == u;
    assert (v as int) as bv16 == v;
  }

  lemma TrailerInjective(x: bv16, y: bv16)
    requires Trailer(x) == Trailer(y)
    ensures x == y
  {
  }

  lemma FcsDeterminesRegister(a: seq<Byte>, b: seq<Byte>)
    requires Fcs(a) == Fcs(b)
    ensures Register(a) == Register(b)
  {
    WordInjective(Trailer(Register(a)), Trailer(Register(b)));
    TrailerInjective(Register(a), Register(b));
  }

  /** Every error burst of at most sixteen bits changes the frame check sequence. */
  lemma BurstDetected(a: seq<Byte>, b: seq<Byte>, k: nat)
    requires DifferInBurst(a, b, k) && a != b
    ensures Fcs(a) != Fcs(b)
  {
    if Fcs(a) == Fcs(b) {
      FcsDeterminesRegister(a, b);
      BurstRegister(a, b, k);
    }
  }

  lemma {:induction false} BitsAt(a: seq<Byte>, i: nat)
    requires i < 8 * |a|
    ensures Bits(a)[i] == ByteBits(a[i / 8])[i % 8]
  {
    if i < 8 {
      assert Bits(a)[i] == ByteBits(a[0])[i];
    } else {
      assert Bits(a)[i] == Bits(a[1..])[i - 8];
      BitsAt(a[1..], i - 8);
      assert i / 8 == (i - 8) / 8 + 1 && i % 8 == (i - 8) % 8;
    }
  }

  /** In particular: strings that differ only in two adjacent bytes never share an FCS. */
  lemma AdjacentBytesDetected(a: seq<Byte>, b: seq<Byte>, k: nat)
    requires |a| == |b| && a != b
    requires forall i :: 0 <= i < |a| && i != k && i != k + 1 ==> a[i] == b[i]
    ensures Fcs(a) != Fcs(b)
  {
    forall i | 0 <= i < 8 * |a| && !(8 * k <= i < 8 * k + 16) ensures Bits(a)[i] == Bits(b)[i] {
      BitsAt(a, i);
      BitsAt(b, i);
    }
    BurstDetected(a, b, 8 * k);
  }

  /** The receiver's check is exact: of all two-byte trailers only the FCS itself passes it. */
  lemma CheckIsExact(data: seq<Byte>, h: Byte, l: Byte)
    ensures Register(data + [h, l]) == GOOD_FCS <==> h == Hi(Fcs(data)) && l == Lo(Fcs(data))
  {
    var sent: seq<Byte> := [Hi(Fcs(data)), Lo(Fcs(data))];
    GoodResidue(data);
    if Register(data + [h, l]) == GOOD_FCS {
      var k := 8 * |data|;
      forall i | 0 <= i < 8 * |data + sent| && !(k <= i < k + 16)
        ensures Bits(data + [h, l])[i] == Bits(data + sent)[i]
      {
        BitsAt(data + [h, l], i);
        BitsAt(data + sent, i);
      }
      BurstRegister(data + [h, l], data + sent, k);
      assert (data + [h, l])[|data|] == h && (data + [h, l])[|data| + 1] == l;
    }
  }
}
