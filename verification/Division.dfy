/**
 Which checksum it is: the register of Crc32 is the remainder of a long division by the generator
 of RFC 1952, section 8, over polynomials with coefficients 0 and 1.
 */
module CrcDivision {
  import opened Bytes
  import opened Crc32

  /** The powers of x in the generator. */
  const EXPONENTS: set<int> := {32, 26, 23, 22, 16, 12, 11, 10, 8, 7, 5, 4, 2, 1, 0}

  // ----- Long division; a polynomial is given by its coefficients, the highest power first -----

  /** Takes away the generator, its highest power under the highest power of p. */
  function Subtract(p: seq<bool>): (r: seq<bool>)
    ensures |r| == |p|
  {
    seq(|p|, i requires 0 <= i < |p| => p[i] != (32 - i in EXPONENTS))
  }

  function Remainder(p: seq<bool>): (r: seq<bool>)
    requires |p| >= 32
    ensures |r| == 32
    decreases |p|
  {
    if |p| == 32 then p else Remainder((if p[0] then Subtract(p) else p)[1..])
  }

  function Zeros(n: nat): (r: seq<bool>)
    ensures |r| == n
  {
    seq(n, _ => false)
  }

  /** Adds 32 coefficients to the highest ones of p. */
  function AddFront(p: seq<bool>, c: seq<bool>): (r: seq<bool>)
    requires |c| == 32
    ensures |r| == |p|
  {
    seq(|p|, i requires 0 <= i < |p| => p[i] != (i < 32 && c[i]))
  }

  // ----- The step of the register is one line of the division -----

  /** The coefficients of the generator below x^32. */
  function Tail(): (r: seq<bool>)
    ensures |r| == 32
  {
    seq(32, i requires 0 <= i < 32 => 31 - i in EXPONENTS)
  }

  lemma FourFrom(a: seq<bool>, i: nat)
    requires i + 4 <= |a|
    ensures Packed(a[i..]) == Pack(a[i], Pack(a[i + 1], Pack(a[i + 2], Pack(a[i + 3], Packed(a[i + 4..])))))
  {
    hide Packed, Pack;
    PackedFour(a[i], a[i + 1], a[i + 2], a[i + 3], a[i + 4..]);
    assert a[i..] == [a[i], a[i + 1], a[i + 2], a[i + 3]] + a[i + 4..];
  }

  function Pack4(a: bool, b: bool, c: bool, d: bool, rest: bv32): bv32 {
    Pack(a, Pack(b, Pack(c, Pack(d, rest))))
  }

  lemma FourBits(s: seq<bool>, i: nat, rest: bv32, a: bool, b: bool, c: bool, d: bool)
    requires i + 4 <= |s| && Packed(s[i + 4..]) == rest
    requires s[i] == a && s[i + 1] == b && s[i + 2] == c && s[i + 3] == d
    ensures Packed(s[i..]) == Pack4(a, b, c, d, rest)
  {
    hide Packed, Pack;
    FourFrom(s, i);
  }

  lemma Nibbles()
    ensures Pack4(false, true, true, true, 0x0) == 0xE
    ensures Pack4(true, false, true, true, 0xE) == 0xED
    ensures Pack4(true, true, false, true, 0xED) == 0xEDB
    ensures Pack4(false, false, false, true, 0xEDB) == 0xEDB8
    ensures Pack4(false, false, false, true, 0xEDB8) == 0xEDB88
    ensures Pack4(true, true, false, false, 0xEDB88) == 0xEDB883
    ensures Pack4(false, true, false, false, 0xEDB883) == 0xEDB8832
    ensures Pack4(false, false, false, false, 0xEDB8832) == 0xEDB88320
  {
  }

  lemma EightBits(s: seq<bool>, i: nat, rest: bv32,
                  a: bool, b: bool, c: bool, d: bool, e: bool, f: bool, g: bool, h: bool)
    requires i + 8 <= |s| && Packed(s[i + 8..]) == rest
    requires s[i] == a && s[i + 1] == b && s[i + 2] == c && s[i + 3] == d
    requires s[i + 4] == e && s[i + 5] == f && s[i + 6] == g && s[i + 7] == h
    ensures Packed(s[i..]) == Pack4(a, b, c, d, Pack4(e, f, g, h, rest))
  {
    hide Packed, Pack, Pack4;
    FourBits(s, i + 4, rest, e, f, g, h);
    FourBits(s, i, Pack4(e, f, g, h, rest), a, b, c, d);
  }

  lemma HighestByte()
    ensures Packed(Tail()[24..]) == 0xED
  {
    hide Packed, Pack, Pack4;
    Nibbles();
    assert Tail()[24] && !Tail()[25] && Tail()[26] && Tail()[27];
    assert !Tail()[28] && Tail()[29] && Tail()[30] && Tail()[31];
    NothingPacked();
    assert Tail()[32..] == [];
    EightBits(Tail(), 24, 0x0, true, false, true, true, false, true, true, true);
  }

  lemma HighByte()
    ensures Packed(Tail()[16..]) == 0xEDB8
  {
    hide Packed, Pack, Pack4;
    Nibbles();
    assert !Tail()[16] && !Tail()[17] && !Tail()[18] && Tail()[19];
    assert Tail()[20] && Tail()[21] && !Tail()[22] && Tail()[23];
    HighestByte();
    EightBits(Tail(), 16, 0xED, false, false, false, true, true, true, false, true);
  }

  lemma LowByte()
    ensures Packed(Tail()[8..]) == 0xEDB883
  {
    hide Packed, Pack, Pack4;
    Nibbles();
    assert Tail()[8] && Tail()[9] && !Tail()[10] && !Tail()[11];
    assert !Tail()[12] && !Tail()[13] && !Tail()[14] && Tail()[15];
    HighByte();
    EightBits(Tail(), 8, 0xEDB8, true, true, false, false, false, false, false, true);
  }

  lemma LowestByte()
    ensures Packed(Tail()[0..]) == 0xEDB88320
  {
    hide Packed, Pack, Pack4;
    Nibbles();
    assert !Tail()[0] && !Tail()[1] && !Tail()[2] && !Tail()[3];
    assert !Tail()[4] && Tail()[5] && !Tail()[6] && !Tail()[7];
    LowByte();
    EightBits(Tail(), 0, 0xEDB883, false, false, false, false, false, true, false, false);
  }

  /** The polynomial of the loop is the generator. */
  lemma TailIsPolynomial()
    ensures Packed(Tail()) == 0xEDB88320
  {
    hide Packed, Tail;
    LowestByte();
    assert Tail()[0..] == Tail();
  }

  /** Adding polynomials is the exclusive or of the registers that hold them. */
  function Sum(a: seq<bool>, b: seq<bool>): (r: seq<bool>)
    requires |a| == |b|
    ensures |r| == |a|
  {
    seq(|a|, i requires 0 <= i < |a| => a[i] != b[i])
  }

  lemma DoubleOfXor(x: bv32, y: bv32)
    ensures Double(Xor(x, y)) == Xor(Double(x), Double(y))
  {
  }

  lemma LowOfXor(a: bool, b: bool)
    ensures Low(a != b) == Xor(Low(a), Low(b))
  {
  }

  lemma XorMiddle(p: bv32, q: bv32, r: bv32, s: bv32)
    ensures Xor(Xor(p, q), Xor(r, s)) == Xor(Xor(p, r), Xor(q, s))
  {
    hide Xor;
    XorAssociative(p, q, Xor(r, s));
    XorAssociative(q, r, s);
    XorCommutative(q, r);
    XorAssociative(r, q, s);
    XorAssociative(p, r, Xor(q, s));
  }

  lemma SumStep(a: bool, b: bool, x: bv32, y: bv32)
    ensures Pack(a != b, Xor(x, y)) == Xor(Pack(a, x), Pack(b, y))
  {
    hide Xor, Low, Double;
    DoubleOfXor(x, y);
    LowOfXor(a, b);
    XorMiddle(Low(a), Low(b), Double(x), Double(y));
  }

  lemma {:induction false} PackedSum(a: seq<bool>, b: seq<bool>)
    requires |a| == |b|
    ensures Packed(Sum(a, b)) == Xor(Packed(a), Packed(b))
    decreases |a|
  {
    hide Pack, Xor, Packed;
    if a == [] {
      NothingPacked();
      XorZero(0);
      assert Sum(a, b) == [] && b == [];
    } else {
      PackedSum(a[1..], b[1..]);
      PackedStep(a[0], a[1..]);
      PackedStep(b[0], b[1..]);
      PackedStep(a[0] != b[0], Sum(a[1..], b[1..]));
      SumStep(a[0], b[0], Packed(a[1..]), Packed(b[1..]));
      assert a == [a[0]] + a[1..] && b == [b[0]] + b[1..];
      assert Sum(a, b) == [a[0] != b[0]] + Sum(a[1..], b[1..]);
    }
  }

  lemma PackOfNothing()
    ensures Pack(false, 0) == 0
  {
  }

  /** A zero behind the bits adds nothing to their number. */
  lemma {:induction false} PackedThenZero(a: seq<bool>)
    ensures Packed(a + [false]) == Packed(a)
    decreases |a|
  {
    hide Pack, Packed;
    if a == [] {
      NothingPacked();
      PackOfNothing();
      PackedStep(false, []);
      assert a + [false] == [false] + [];
    } else {
      PackedThenZero(a[1..]);
      PackedStep(a[0], a[1..]);
      PackedStep(a[0], a[1..] + [false]);
      assert a == [a[0]] + a[1..];
      assert a + [false] == [a[0]] + (a[1..] + [false]);
    }
  }

  lemma BitOfPack(c: bool, b: bool, rest: bv32)
    requires rest <= 0x7FFFFFFF
    ensures Bit(Xor(Pack(c, rest), Low(b))) == if c != b then Xor(rest, 0xEDB88320) else rest
  {
    hide Bit, Xor, Low, Double;
    XorCommutative(Pack(c, rest), Low(b));
    SerialStep(Low(b), Low(c), rest);
    BitOfTwo(b, c);
    XorZero(rest);
    XorCommutative(0, rest);
    XorCommutative(0xEDB88320, rest);
  }

  lemma BitOfTwo(b: bool, c: bool)
    ensures Bit(Xor(Low(b), Low(c))) == if c != b then 0xEDB88320 else 0
  {
  }

  /** The coefficients after one more bit has been taken: shifted up by one power of x, and the
      generator taken away when x^32 appears. */
  function Shifted(c: seq<bool>, b: bool): (r: seq<bool>)
    requires |c| == 32
    ensures |r| == 32
  {
    var up := c[1..] + [false];
    if c[0] != b then Sum(up, Tail()) else up
  }

  lemma StepShifts(c: seq<bool>, b: bool)
    requires |c| == 32
    ensures Bit(Xor(Packed(c), Low(b))) == Packed(Shifted(c, b))
  {
    hide Pack, Packed, Bit, Xor, Low, Tail;
    PackedFits(c[1..]);
    PackedStep(c[0], c[1..]);
    assert c == [c[0]] + c[1..];
    BitOfPack(c[0], b, Packed(c[1..]));
    PackedThenZero(c[1..]);
    TailIsPolynomial();
    PackedSum(c[1..] + [false], Tail());
  }

  lemma LineOfDivision(bits: seq<bool>, c: seq<bool>)
    requires |c| == 32 && bits != []
    ensures var p := AddFront(bits + Zeros(32), c);
      && |p| > 32 && p[0] == (c[0] != bits[0])
      && (if p[0] then Subtract(p) else p)[1..] == AddFront(bits[1..] + Zeros(32), Shifted(c, bits[0]))
  {
    var p := AddFront(bits + Zeros(32), c);
    var q := (if p[0] then Subtract(p) else p)[1..];
    var s := AddFront(bits[1..] + Zeros(32), Shifted(c, bits[0]));
    assert |q| == |s|;
    forall i | 0 <= i < |q| ensures q[i] == s[i] {
      assert (bits + Zeros(32))[i + 1] == (bits[1..] + Zeros(32))[i];
    }
  }

  /** The register that takes some bits divides them, followed by 32 zeros and with its own first
      contents added in front, by the generator. */
  lemma {:induction false} SerialIsDivision(c: seq<bool>, bits: seq<bool>)
    requires |c| == 32
    ensures Serial(Packed(c), bits) == Packed(Remainder(AddFront(bits + Zeros(32), c)))
    decreases |bits|
  {
    hide Packed, Bit, Xor, Low, Shifted;
    if bits == [] {
      assert AddFront(bits + Zeros(32), c) == c;
    } else {
      StepShifts(c, bits[0]);
      LineOfDivision(bits, c);
      SerialIsDivision(Shifted(c, bits[0]), bits[1..]);
    }
  }

  function Ones(): (r: seq<bool>)
    ensures |r| == 32
  {
    seq(32, _ => true)
  }

  lemma OnesGrow()
    ensures Pack4(true, true, true, true, Pack4(true, true, true, true, 0)) == 0xFF
    ensures Pack4(true, true, true, true, Pack4(true, true, true, true, 0xFF)) == 0xFFFF
    ensures Pack4(true, true, true, true, Pack4(true, true, true, true, 0xFFFF)) == 0xFFFFFF
    ensures Pack4(true, true, true, true, Pack4(true, true, true, true, 0xFFFFFF)) == 0xFFFFFFFF
  {
  }

  lemma OnesArePacked()
    ensures Packed(Ones()) == 0xFFFFFFFF
  {
    hide Packed, Pack, Pack4;
    var s := Ones();
    assert s[32..] == [] && s[0..] == s;
    NothingPacked();
    OnesGrow();
    EightBits(s, 24, 0, true, true, true, true, true, true, true, true);
    EightBits(s, 16, 0xFF, true, true, true, true, true, true, true, true);
    EightBits(s, 8, 0xFFFF, true, true, true, true, true, true, true, true);
    EightBits(s, 0, 0xFFFFFF, true, true, true, true, true, true, true, true);
  }

  /** compute_crc32 is the CRC-32 of the standard: the message, lowest bit of each byte first and
      followed by 32 zeros, with its first 32 bits complemented, is divided by the generator, and
      the remainder is complemented; its highest power is the lowest bit of the answer. */
  lemma CrcIsRemainder(data: seq<Byte>)
    ensures Crc(data) == Packed(Sum(Remainder(AddFront(BitStream(data) + Zeros(32), Ones())), Ones()))
  {
    hide Packed, Serial, BitStream, Xor, Register, Remainder;
    OnesArePacked();
    RegisterIsSerial(0xFFFFFFFF, data);
    SerialIsDivision(Ones(), BitStream(data));
    PackedSum(Remainder(AddFront(BitStream(data) + Zeros(32), Ones())), Ones());
  }

  // ----- Two laws by which the checksum is recognised -----

  /** The four bytes of a number, lowest first. */
  function LowestFirst(v: bv32): (r: seq<Byte>)
    ensures |r| == 4
  {
    [(v & 0xFF) as Byte, ((v >> 8) & 0xFF) as Byte, ((v >> 16) & 0xFF) as Byte, ((v >> 24) & 0xFF) as Byte]
  }

  lemma PackSplits(b: bool, x: bv32, y: bv32)
    ensures Pack(b, Xor(x, y)) == Xor(Pack(b, x), Double(y))
  {
    hide Xor, Low, Double;
    DoubleOfXor(x, y);
    XorAssociative(Low(b), Double(x), Double(y));
  }

  lemma Pack4Splits(a: bool, b: bool, c: bool, d: bool, x: bv32, y: bv32)
    ensures Pack4(a, b, c, d, Xor(x, y)) == Xor(Pack4(a, b, c, d, x), FourUp(y))
  {
    hide Xor, Pack, Double, FourUp;
    PackSplits(d, x, y);
    PackSplits(c, Pack(d, x), Double(y));
    PackSplits(b, Pack(c, Pack(d, x)), Double(Double(y)));
    PackSplits(a, Pack(b, Pack(c, Pack(d, x))), Double(Double(Double(y))));
    DoublesAdd(y);
  }

  function EightUp(x: bv32): bv32 {
    x << 8
  }

  lemma FourUpTwice(x: bv32)
    ensures FourUp(FourUp(x)) == EightUp(x)
  {
  }

  /** The bits of a byte as a number, with another number above them. */
  function Byte4(byte: Byte, rest: bv32): bv32 {
    Pack4(byte & 1 != 0, byte & 2 != 0, byte & 4 != 0, byte & 8 != 0,
      Pack4(byte & 16 != 0, byte & 32 != 0, byte & 64 != 0, byte & 128 != 0, rest))
  }

  lemma ByteAlonePacked(byte: Byte)
    ensures Byte4(byte, 0) == Widen(byte)
  {
    PackOfByte(byte);
    hide Pack;
  }

  lemma ByteSplits(byte: Byte, x: bv32)
    ensures Byte4(byte, x) == Xor(Widen(byte), EightUp(x))
  {
    var a, b, c, d := byte & 1 != 0, byte & 2 != 0, byte & 4 != 0, byte & 8 != 0;
    var e, f, g, h := byte & 16 != 0, byte & 32 != 0, byte & 64 != 0, byte & 128 != 0;
    hide Pack4, Xor, Widen, FourUp, EightUp;
    ByteAlonePacked(byte);
    XorZero(x);
    XorCommutative(x, 0);
    Pack4Splits(e, f, g, h, 0, x);
    Pack4Splits(a, b, c, d, Pack4(e, f, g, h, 0), FourUp(x));
    FourUpTwice(x);
  }

  lemma ByteInFront(byte: Byte, rest: seq<bool>)
    ensures Packed(BitsOf(byte) + rest) == Byte4(byte, Packed(rest))
  {
    var s := BitsOf(byte) + rest;
    hide Packed, Pack, Pack4;
    assert s[8..] == rest && s[0..] == s;
    EightBits(s, 0, Packed(rest), s[0], s[1], s[2], s[3], s[4], s[5], s[6], s[7]);
  }

  lemma PackedByteThen(byte: Byte, rest: seq<bool>)
    ensures Packed(BitsOf(byte) + rest) == Xor(Widen(byte), EightUp(Packed(rest)))
  {
    hide *;
    ByteInFront(byte, rest);
    ByteSplits(byte, Packed(rest));
  }

  lemma JoinedBytes(v: bv32)
    ensures Xor(Widen((v & 0xFF) as Byte), EightUp(Xor(Widen(((v >> 8) & 0xFF) as Byte),
            EightUp(Xor(Widen(((v >> 16) & 0xFF) as Byte), EightUp(Widen(((v >> 24) & 0xFF) as Byte))))))) == v
  {
  }

  lemma ByteAlone(byte: Byte)
    ensures BitStream([byte]) == BitsOf(byte) && Packed(BitsOf(byte)) == Widen(byte)
  {
    hide BitsOf, Packed, Widen;
    PackedByte(byte);
    assert [byte][..0] == [];
  }

  lemma FourBytesPacked(a: Byte, b: Byte, c: Byte, d: Byte)
    ensures Packed(BitStream([a, b, c, d])) ==
      Xor(Widen(a), EightUp(Xor(Widen(b), EightUp(Xor(Widen(c), EightUp(Widen(d)))))))
  {
    hide *;
    assert [a, b, c, d] == [a] + ([b] + ([c] + [d]));
    BitStreamConcat([a], [b] + ([c] + [d]));
    BitStreamConcat([b], [c] + [d]);
    BitStreamConcat([c], [d]);
    ByteAlone(a);
    ByteAlone(b);
    ByteAlone(c);
    ByteAlone(d);
    PackedByteThen(c, BitsOf(d));
    PackedByteThen(b, BitsOf(c) + BitsOf(d));
    PackedByteThen(a, BitsOf(b) + (BitsOf(c) + BitsOf(d)));
  }

  lemma LowestFirstPacked(v: bv32)
    ensures Packed(BitStream(LowestFirst(v))) == v
  {
    hide Packed, BitStream, Widen;
    FourBytesPacked((v & 0xFF) as Byte, ((v >> 8) & 0xFF) as Byte,
                    ((v >> 16) & 0xFF) as Byte, ((v >> 24) & 0xFF) as Byte);
    JoinedBytes(v);
  }

  lemma XorsToOnes(r: bv32)
    ensures Xor(r, Xor(r, 0xFFFFFFFF)) == 0xFFFFFFFF
  {
  }

  lemma EightSteps(x: bv32)
    ensures Bits(x, 8) == Bit(Bit(Bit(Bit(Bit(Bit(Bit(Bit(x))))))))
  {
    hide Bit;
    OneStep(x, 8);
    OneStep(Bit(x), 7);
    OneStep(Bit(Bit(x)), 6);
    OneStep(Bit(Bit(Bit(x))), 5);
    OneStep(Bit(Bit(Bit(Bit(x)))), 4);
    OneStep(Bit(Bit(Bit(Bit(Bit(x))))), 3);
    OneStep(Bit(Bit(Bit(Bit(Bit(Bit(x)))))), 2);
    OneStep(Bit(Bit(Bit(Bit(Bit(Bit(Bit(x))))))), 1);
  }

  /** What 32 steps make of a register full of ones. */
  lemma StepsOfOnes()
    ensures Bits(0xFFFFFFFF, 32) == 0xDEBB20E3
  {
    assert Bit(Bit(Bit(Bit(Bit(Bit(Bit(Bit(0xFFFFFFFF)))))))) == 0x2DFD1072;
    assert Bit(Bit(Bit(Bit(Bit(Bit(Bit(Bit(0x2DFD1072)))))))) == 0xBE26ED00;
    assert Bit(Bit(Bit(Bit(Bit(Bit(Bit(Bit(0xBE26ED00)))))))) == 0x00BE26ED;
    assert Bit(Bit(Bit(Bit(Bit(Bit(Bit(Bit(0x00BE26ED)))))))) == 0xDEBB20E3;
    hide Bit, Bits;
    EightSteps(0xFFFFFFFF);
    EightSteps(0x2DFD1072);
    EightSteps(0xBE26ED00);
    EightSteps(0x00BE26ED);
    BitsAdd(0xFFFFFFFF, 8, 24);
    BitsAdd(0x2DFD1072, 8, 16);
    BitsAdd(0xBE26ED00, 8, 8);
  }

  /** Data with its checksum behind it always leaves the register with the same residue. */
  lemma ResidueLaw(data: seq<Byte>)
    ensures Register(CRC32_INITIAL, data + LowestFirst(Crc(data))) == 0xDEBB20E3
  {
    hide Register, Xor, LowestFirst, Bits, Serial, Packed, BitStream;
    var r := Register(CRC32_INITIAL, data);
    var check := LowestFirst(Crc(data));
    RegisterConcat(CRC32_INITIAL, data, check);
    RegisterIsSerial(r, check);
    SerialIsWord(r, BitStream(check));
    LowestFirstPacked(Crc(data));
    XorsToOnes(r);
    StepsOfOnes();
  }

  lemma ThreeBytes(r: bv32, a: Byte, b: Byte, c: Byte)
    ensures Register(r, [a, b, c]) == Absorb(Absorb(Absorb(r, a), b), c)
  {
    hide Absorb;
    assert [a, b, c] == [a] + ([b] + [c]);
    RegisterConcat(r, [a], [b] + [c]);
    RegisterConcat(Register(r, [a]), [b], [c]);
    assert [a][..0] == [] && [b][..0] == [] && [c][..0] == [];
  }

  lemma FirstDigits()
    ensures Register(0xFFFFFFFF, [0x31, 0x32, 0x33]) == 0x77B79C2D
  {
    assert Bit(Bit(Bit(Bit(Bit(Bit(Bit(Bit(Xor(0xFFFFFFFF, Widen(0x31)))))))))) == 0x7C231048;
    assert Bit(Bit(Bit(Bit(Bit(Bit(Bit(Bit(Xor(0x7C231048, Widen(0x32)))))))))) == 0xB0ACBB32;
    assert Bit(Bit(Bit(Bit(Bit(Bit(Bit(Bit(Xor(0xB0ACBB32, Widen(0x33)))))))))) == 0x77B79C2D;
    hide Bit, Bits, Xor, Widen, Register;
    EightSteps(Xor(0xFFFFFFFF, Widen(0x31)));
    EightSteps(Xor(0x7C231048, Widen(0x32)));
    EightSteps(Xor(0xB0ACBB32, Widen(0x33)));
    ThreeBytes(0xFFFFFFFF, 0x31, 0x32, 0x33);
  }

  lemma SecondDigits()
    ensures Register(0x77B79C2D, [0x34, 0x35, 0x36]) == 0xF68D2C9E
  {
    assert Bit(Bit(Bit(Bit(Bit(Bit(Bit(Bit(Xor(0x77B79C2D, Widen(0x34)))))))))) == 0x641C1F5C;
    assert Bit(Bit(Bit(Bit(Bit(Bit(Bit(Bit(Xor(0x641C1F5C, Widen(0x35)))))))))) == 0x340AC5E3;
    assert Bit(Bit(Bit(Bit(Bit(Bit(Bit(Bit(Xor(0x340AC5E3, Widen(0x36)))))))))) == 0xF68D2C9E;
    hide Bit, Bits, Xor, Widen, Register;
    EightSteps(Xor(0x77B79C2D, Widen(0x34)));
    EightSteps(Xor(0x641C1F5C, Widen(0x35)));
    EightSteps(Xor(0x340AC5E3, Widen(0x36)));
    ThreeBytes(0x77B79C2D, 0x34, 0x35, 0x36);
  }

  lemma ThirdDigits()
    ensures Register(0xF68D2C9E, [0x37, 0x38, 0x39]) == 0x340BC6D9
  {
    assert Bit(Bit(Bit(Bit(Bit(Bit(Bit(Bit(Xor(0xF68D2C9E, Widen(0x37)))))))))) == 0xAFFC9660;
    assert Bit(Bit(Bit(Bit(Bit(Bit(Bit(Bit(Xor(0xAFFC9660, Widen(0x38)))))))))) == 0x651F2550;
    assert Bit(Bit(Bit(Bit(Bit(Bit(Bit(Bit(Xor(0x651F2550, Widen(0x39)))))))))) == 0x340BC6D9;
    hide Bit, Bits, Xor, Widen, Register;
    EightSteps(Xor(0xF68D2C9E, Widen(0x37)));
    EightSteps(Xor(0xAFFC9660, Widen(0x38)));
    EightSteps(Xor(0x651F2550, Widen(0x39)));
    ThreeBytes(0xF68D2C9E, 0x37, 0x38, 0x39);
  }

  /** The check value of the standard, over the digits from 1 to 9. */
  lemma CheckValue()
    ensures Crc([0x31, 0x32, 0x33, 0x34, 0x35, 0x36, 0x37, 0x38, 0x39]) == 0xCBF43926
  {
    var a: seq<Byte>, b: seq<Byte>, c: seq<Byte> := [0x31, 0x32, 0x33], [0x34, 0x35, 0x36], [0x37, 0x38, 0x39];
    hide Register;
    FirstDigits();
    SecondDigits();
    ThirdDigits();
    RegisterConcat(0xFFFFFFFF, a, b + c);
    RegisterConcat(Register(0xFFFFFFFF, a), b, c);
    assert [0x31, 0x32, 0x33, 0x34, 0x35, 0x36, 0x37, 0x38, 0x39] == a + (b + c);
  }
}
