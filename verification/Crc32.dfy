/**
 The bitwise CRC-32 of the bundle header (RFC 1952, section 8), as the two copies of the loop in
 updateApplication.cpp compute it, and what it detects.
 */
module Crc32 {
  import opened Bytes

  const CRC32_INITIAL: bv32 := 0xFFFFFFFF

  /** Exclusive or, under a name that proofs can hide. */
  function Xor(a: bv32, b: bv32): bv32 {
    a ^ b
  }

  /** One bit: shift right, and subtract the polynomial when a one falls out. */
  function Bit(crc: bv32): bv32 {
    if crc & 1 == 1 then (crc >> 1) ^ 0xEDB88320 else crc >> 1
  }

  function Bits(crc: bv32, n: nat): bv32 {
    if n == 0 then crc else Bit(Bits(crc, n - 1))
  }

  function Widen(byte: Byte): bv32 {
    byte as bv32
  }

  /** The register after one byte. */
  function Absorb(crc: bv32, byte: Byte): bv32 {
    Bits(Xor(crc, Widen(byte)), 8)
  }

  /** The register after some data. */
  function Register(crc: bv32, data: seq<Byte>): bv32 {
    if data == [] then crc else Absorb(Register(crc, data[..|data| - 1]), data[|data| - 1])
  }

  function Crc(data: seq<Byte>): bv32 {
    Xor(Register(CRC32_INITIAL, data), CRC32_INITIAL)
  }

  // ----- The code -----

  /** The inner loop, for one byte. */
  method AbsorbByte(register: bv32, byte: Byte) returns (crc: bv32)
    ensures crc == Absorb(register, byte)
  {
    hide Xor, Widen;
    var start := Xor(register, Widen(byte));
    crc := start;
    for i := 0 to 8
      invariant crc == Bits(start, i)
    {
      if crc & 1 == 1 {
        crc := (crc >> 1) ^ 0xEDB88320;
      } else {
        crc := crc >> 1;
      }
    }
  }

  /** compute_crc32. */
  method ComputeCrc32(data: seq<Byte>) returns (r: bv32)
    ensures r == Crc(data)
  {
    hide Xor, Absorb;
    var crc := CRC32_INITIAL;
    for k := 0 to |data|
      invariant crc == Register(CRC32_INITIAL, data[..k])
    {
      crc := AbsorbByte(crc, data[k]);
      assert data[..k + 1][..k] == data[..k];
    }
    assert data[..|data|] == data;
    return Xor(crc, CRC32_INITIAL);
  }

  /** The register composes: the CRC of a concatenation can be computed piece by piece. */
  lemma {:induction false} RegisterConcat(crc: bv32, a: seq<Byte>, b: seq<Byte>)
    ensures Register(crc, a + b) == Register(Register(crc, a), b)
  {
    hide Absorb;
    if b == [] {
      assert a + b == a;
    } else {
      var n := |b| - 1;
      RegisterConcat(crc, a, b[..n]);
      assert (a + b)[..|a + b| - 1] == a + b[..n];
    }
  }

  // ----- Bits of exclusive or -----

  lemma XorAssociative(a: bv32, b: bv32, c: bv32)
    ensures Xor(Xor(a, b), c) == Xor(a, Xor(b, c))
  {
  }

  lemma XorCommutative(a: bv32, b: bv32)
    ensures Xor(a, b) == Xor(b, a)
  {
  }

  lemma XorSelf(x: bv32, z: bv32)
    ensures Xor(Xor(x, z), z) == x
  {
  }

  lemma XorCancel(x: bv32, y: bv32, z: bv32)
    requires Xor(x, z) == Xor(y, z)
    ensures x == y
  {
    hide Xor;
    XorSelf(x, z);
    XorSelf(y, z);
  }

  lemma HalvesOfXor(x: bv32, y: bv32)
    ensures (x ^ y) >> 1 == (x >> 1) ^ (y >> 1)
  {
  }

  lemma LowBitOfXor(x: bv32, y: bv32)
    ensures (x ^ y) & 1 == 1 <==> (x & 1 == 1 <==> y & 1 != 1)
  {
  }

  lemma PolynomialMoves(u: bv32, v: bv32, p: bv32)
    ensures (u ^ p) ^ v == (u ^ v) ^ p
    ensures u ^ (v ^ p) == (u ^ v) ^ p
    ensures (u ^ p) ^ (v ^ p) == u ^ v
  {
  }

  lemma BitLinear(x: bv32, y: bv32)
    ensures Bit(Xor(x, y)) == Xor(Bit(x), Bit(y))
  {
    HalvesOfXor(x, y);
    LowBitOfXor(x, y);
    PolynomialMoves(x >> 1, y >> 1, 0xEDB88320);
  }

  /** The inverse of a step: the top bit of the polynomial tells which case it was. */
  function Unbit(crc: bv32): bv32 {
    if crc & 0x80000000 != 0 then ((crc ^ 0xEDB88320) << 1) | 1 else crc << 1
  }

  lemma UnbitBit(x: bv32)
    ensures Unbit(Bit(x)) == x
  {
  }

  // ----- Linearity and injectivity -----

  /** The step on the register is linear. */
  lemma {:induction false} BitsLinear(x: bv32, y: bv32, n: nat)
    ensures Bits(Xor(x, y), n) == Xor(Bits(x, n), Bits(y, n))
  {
    hide Bit, Xor;
    if n > 0 {
      BitsLinear(x, y, n - 1);
      BitLinear(Bits(x, n - 1), Bits(y, n - 1));
    }
  }

  /** The step is injective on 32-bit states. */
  lemma {:induction false} BitsInjective(x: bv32, y: bv32, n: nat)
    requires Bits(x, n) == Bits(y, n)
    ensures x == y
  {
    hide Bit, Unbit;
    if n > 0 {
      UnbitBit(Bits(x, n - 1));
      UnbitBit(Bits(y, n - 1));
      BitsInjective(x, y, n - 1);
    }
  }

  lemma AbsorbInjective(x: bv32, y: bv32, byte: Byte)
    requires Absorb(x, byte) == Absorb(y, byte)
    ensures x == y
  {
    hide Bits, Bit, Xor, Widen;
    BitsInjective(Xor(x, Widen(byte)), Xor(y, Widen(byte)), 8);
    XorCancel(x, y, Widen(byte));
  }

  lemma {:induction false} RegisterInjective(x: bv32, y: bv32, data: seq<Byte>)
    requires Register(x, data) == Register(y, data)
    ensures x == y
  {
    hide Absorb;
    if data != [] {
      var n := |data| - 1;
      AbsorbInjective(Register(x, data[..n]), Register(y, data[..n]), data[n]);
      RegisterInjective(x, y, data[..n]);
    }
  }

  lemma {:induction false} BitsAdd(x: bv32, m: nat, n: nat)
    ensures Bits(x, m + n) == Bits(Bits(x, m), n)
  {
    hide Bit;
    if n > 0 {
      BitsAdd(x, m, n - 1);
    }
  }

  // ----- The same register, one bit at a time -----

  function Low(b: bool): bv32 {
    if b then 1 else 0
  }

  /** The register after some bits. */
  function Serial(crc: bv32, bits: seq<bool>): bv32
    decreases |bits|
  {
    if bits == [] then crc else Serial(Bit(Xor(crc, Low(bits[0]))), bits[1..])
  }

  /** The bits of a byte in the order in which the register takes them. */
  function BitsOf(byte: Byte): (r: seq<bool>)
    ensures |r| == 8
  {
    [byte & 1 != 0, byte & 2 != 0, byte & 4 != 0, byte & 8 != 0,
     byte & 16 != 0, byte & 32 != 0, byte & 64 != 0, byte & 128 != 0]
  }

  function BitStream(data: seq<Byte>): (r: seq<bool>)
    ensures |r| == 8 * |data|
  {
    if data == [] then [] else BitStream(data[..|data| - 1]) + BitsOf(data[|data| - 1])
  }

  lemma {:induction false} SerialConcat(crc: bv32, a: seq<bool>, b: seq<bool>)
    ensures Serial(crc, a + b) == Serial(Serial(crc, a), b)
    decreases |a|
  {
    hide Bit, Xor, Low;
    if a == [] {
      assert a + b == b;
    } else {
      assert (a + b)[1..] == a[1..] + b;
      SerialConcat(Bit(Xor(crc, Low(a[0]))), a[1..], b);
    }
  }

  lemma {:induction false} SerialStateInjective(x: bv32, y: bv32, bits: seq<bool>)
    requires Serial(x, bits) == Serial(y, bits)
    ensures x == y
    decreases |bits|
  {
    hide Bit, Unbit, Xor, Low;
    if bits != [] {
      var b := Low(bits[0]);
      SerialStateInjective(Bit(Xor(x, b)), Bit(Xor(y, b)), bits[1..]);
      UnbitBit(Xor(x, b));
      UnbitBit(Xor(y, b));
      XorCancel(x, y, b);
    }
  }

  // ----- Up to 32 bits are one word -----

  function Double(x: bv32): bv32 {
    x << 1
  }

  /** Bits as a number, the first one lowest. */
  function Packed(bits: seq<bool>): bv32 {
    if bits == [] then 0 else Xor(Low(bits[0]), Double(Packed(bits[1..])))
  }

  lemma BitOfDouble(x: bv32)
    requires x <= 0x7FFFFFFF
    ensures Bit(Double(x)) == x
  {
  }

  lemma UnpackedStep(a: bool, b: bool, x: bv32, y: bv32)
    requires x <= 0x7FFFFFFF && y <= 0x7FFFFFFF
    requires Xor(Low(a), Double(x)) == Xor(Low(b), Double(y))
    ensures a == b && x == y
  {
  }

  /** The bits above the lowest n. */
  function Above(n: nat): bv32 {
    if n == 0 then 0xFFFFFFFF else Double(Above(n - 1))
  }

  predicate Apart(x: bv32, y: bv32) {
    x & y == 0
  }

  predicate Within(x: bv32, y: bv32) {
    x & y == x
  }

  predicate HasTop(x: bv32) {
    x & 0x80000000 != 0
  }

  lemma ApartStep(x: bv32, y: bv32, b: bool)
    requires Apart(x, y)
    ensures Apart(Xor(Low(b), Double(x)), Double(y))
  {
  }

  lemma WithinStep(x: bv32, y: bv32)
    requires Within(x, y)
    ensures Within(Double(x), Double(y))
  {
  }

  lemma TopWithin(x: bv32, y: bv32)
    requires Within(x, y) && HasTop(x)
    ensures HasTop(y)
  {
  }

  lemma ApartFromTop(x: bv32, y: bv32)
    requires Apart(x, y) && HasTop(y)
    ensures x <= 0x7FFFFFFF
  {
  }

  lemma AboveFirst()
    ensures Above(0) == 0xFFFFFFFF && Within(Double(0xFFFFFFFF), 0xFFFFFFFF) && Apart(0, 0xFFFFFFFF)
  {
  }

  lemma AboveStep(n: nat)
    ensures Above(n + 1) == Double(Above(n))
  {
  }

  function FourUp(x: bv32): bv32 {
    x << 4
  }

  lemma DoublesAdd(x: bv32)
    ensures Double(Double(Double(Double(x)))) == FourUp(x)
  {
  }

  lemma AboveByFour(n: nat)
    ensures Above(n + 4) == FourUp(Above(n))
  {
    hide Double, FourUp;
    AboveStep(n);
    AboveStep(n + 1);
    AboveStep(n + 2);
    AboveStep(n + 3);
    DoublesAdd(Above(n));
  }

  lemma Shifts()
    ensures FourUp(0xFFFFFFFF) == 0xFFFFFFF0 && FourUp(0xFFFFFFF0) == 0xFFFFFF00 && FourUp(0xFFFFFF00) == 0xFFFFF000
    ensures FourUp(0xFFFFF000) == 0xFFFF0000 && FourUp(0xFFFF0000) == 0xFFF00000 && FourUp(0xFFF00000) == 0xFF000000
    ensures FourUp(0xFF000000) == 0xF0000000 && Double(0xF0000000) == 0xE0000000 && Double(0xE0000000) == 0xC0000000
    ensures Double(0xC0000000) == 0x80000000 && HasTop(0x80000000)
  {
  }

  lemma AboveLast()
    ensures HasTop(Above(31))
  {
    hide Double, FourUp, Above, HasTop;
    AboveFirst();
    AboveByFour(0);
    AboveByFour(4);
    AboveByFour(8);
    AboveByFour(12);
    AboveByFour(16);
    AboveByFour(20);
    AboveByFour(24);
    AboveStep(28);
    AboveStep(29);
    AboveStep(30);
    Shifts();
  }

  lemma {:induction false} AboveNested(n: nat)
    ensures Within(Above(n + 1), Above(n))
  {
    hide Double, Within, Above;
    AboveStep(n);
    if n == 0 {
      AboveFirst();
    } else {
      AboveNested(n - 1);
      AboveStep(n - 1);
      WithinStep(Above(n), Above(n - 1));
    }
  }

  lemma {:induction false} AboveHasTop(n: nat)
    requires n <= 31
    ensures HasTop(Above(n))
    decreases 31 - n
  {
    hide Double, Within, Above, HasTop;
    if n == 31 {
      AboveLast();
    } else {
      AboveHasTop(n + 1);
      AboveNested(n);
      TopWithin(Above(n + 1), Above(n));
    }
  }

  lemma {:induction false} PackedBelow(bits: seq<bool>)
    ensures Apart(Packed(bits), Above(|bits|))
  {
    hide Double, Apart, Above, Xor, Low;
    AboveFirst();
    if bits != [] {
      PackedBelow(bits[1..]);
      AboveStep(|bits| - 1);
      ApartStep(Packed(bits[1..]), Above(|bits| - 1), bits[0]);
    }
  }

  lemma PackedFits(bits: seq<bool>)
    requires |bits| <= 31
    ensures Packed(bits) <= 0x7FFFFFFF
  {
    hide *;
    PackedBelow(bits);
    AboveHasTop(|bits|);
    ApartFromTop(Packed(bits), Above(|bits|));
  }

  lemma {:induction false} PackedInjective(a: seq<bool>, b: seq<bool>)
    requires |a| == |b| <= 32 && Packed(a) == Packed(b)
    ensures a == b
    decreases |a|
  {
    hide Double, Xor, Low;
    if a != [] {
      PackedFits(a[1..]);
      PackedFits(b[1..]);
      UnpackedStep(a[0], b[0], Packed(a[1..]), Packed(b[1..]));
      PackedInjective(a[1..], b[1..]);
      assert a == [a[0]] + a[1..] && b == [b[0]] + b[1..];
    }
  }

  lemma SerialStep(crc: bv32, bit: bv32, rest: bv32)
    requires rest <= 0x7FFFFFFF
    ensures Bit(Xor(crc, Xor(bit, Double(rest)))) == Xor(Bit(Xor(crc, bit)), rest)
  {
    hide Bit, Xor, Double;
    XorAssociative(crc, bit, Double(rest));
    BitLinear(Xor(crc, bit), Double(rest));
    BitOfDouble(rest);
  }

  lemma OneStep(x: bv32, n: nat)
    requires n > 0
    ensures Bits(x, n) == Bits(Bit(x), n - 1)
  {
    hide Bit;
    BitsAdd(x, 1, n - 1);
    assert Bits(x, 1) == Bit(Bits(x, 0));
  }

  /** Up to 32 bits in a row act as one word and as many steps. */
  lemma {:induction false} SerialIsWord(crc: bv32, bits: seq<bool>)
    requires |bits| <= 32
    ensures Serial(crc, bits) == Bits(Xor(crc, Packed(bits)), |bits|)
    decreases |bits|
  {
    hide Bit, Double, Xor, Low;
    if bits == [] {
      XorZero(crc);
    } else {
      var bit, rest := Low(bits[0]), Packed(bits[1..]);
      PackedFits(bits[1..]);
      SerialIsWord(Bit(Xor(crc, bit)), bits[1..]);
      SerialStep(crc, bit, rest);
      OneStep(Xor(crc, Packed(bits)), |bits|);
    }
  }

  lemma XorZero(x: bv32)
    ensures Xor(x, 0) == x
  {
  }

  /** Different bits, at most 32 of them, never lead from one register to the same register. */
  lemma SerialInjective(crc: bv32, a: seq<bool>, b: seq<bool>)
    requires |a| == |b| <= 32 && Serial(crc, a) == Serial(crc, b)
    ensures a == b
  {
    hide Bit, Bits, Xor, Serial, Packed;
    SerialIsWord(crc, a);
    SerialIsWord(crc, b);
    BitsInjective(Xor(crc, Packed(a)), Xor(crc, Packed(b)), |a|);
    XorCommutative(crc, Packed(a));
    XorCommutative(crc, Packed(b));
    XorCancel(Packed(a), Packed(b), crc);
    PackedInjective(a, b);
  }

  // ----- Bytes and their bits -----

  function Pack(b: bool, rest: bv32): bv32 {
    Xor(Low(b), Double(rest))
  }

  lemma PackOfByte(byte: Byte)
    ensures Pack(byte & 1 != 0, Pack(byte & 2 != 0, Pack(byte & 4 != 0, Pack(byte & 8 != 0,
            Pack(byte & 16 != 0, Pack(byte & 32 != 0, Pack(byte & 64 != 0, Pack(byte & 128 != 0, 0))))))))
         == Widen(byte)
  {
  }

  lemma PackedStep(b: bool, rest: seq<bool>)
    ensures Packed([b] + rest) == Pack(b, Packed(rest))
  {
    hide Double, Xor, Low;
    assert ([b] + rest)[1..] == rest;
  }

  lemma PackedTwo(a: bool, b: bool, rest: seq<bool>)
    ensures Packed([a, b] + rest) == Pack(a, Pack(b, Packed(rest)))
  {
    hide Packed, Pack;
    PackedStep(b, rest);
    PackedStep(a, [b] + rest);
    assert [a, b] + rest == [a] + ([b] + rest);
  }

  lemma PackedFour(a: bool, b: bool, c: bool, d: bool, rest: seq<bool>)
    ensures Packed([a, b, c, d] + rest) == Pack(a, Pack(b, Pack(c, Pack(d, Packed(rest)))))
  {
    hide Packed, Pack;
    PackedTwo(c, d, rest);
    PackedTwo(a, b, [c, d] + rest);
    assert [a, b, c, d] + rest == [a, b] + ([c, d] + rest);
  }

  lemma PackedEight(a: bool, b: bool, c: bool, d: bool, e: bool, f: bool, g: bool, h: bool)
    ensures Packed([a, b, c, d, e, f, g, h])
         == Pack(a, Pack(b, Pack(c, Pack(d, Pack(e, Pack(f, Pack(g, Pack(h, 0))))))))
  {
    NothingPacked();
    hide Packed, Pack;
    PackedFour(e, f, g, h, []);
    PackedFour(a, b, c, d, [e, f, g, h] + []);
    assert [a, b, c, d, e, f, g, h] == [a, b, c, d] + ([e, f, g, h] + []);
  }

  lemma NothingPacked()
    ensures Packed([]) == 0
  {
  }

  lemma PackedByte(byte: Byte)
    ensures Packed(BitsOf(byte)) == Widen(byte)
  {
    hide Packed, Pack, Widen;
    PackedEight(byte & 1 != 0, byte & 2 != 0, byte & 4 != 0, byte & 8 != 0,
                byte & 16 != 0, byte & 32 != 0, byte & 64 != 0, byte & 128 != 0);
    PackOfByte(byte);
  }

  lemma WidenInjective(a: Byte, b: Byte)
    requires Widen(a) == Widen(b)
    ensures a == b
  {
  }

  lemma BitsOfInjective(a: Byte, b: Byte)
    requires BitsOf(a) == BitsOf(b)
    ensures a == b
  {
    hide BitsOf, Widen;
    PackedByte(a);
    PackedByte(b);
    WidenInjective(a, b);
  }

  lemma {:induction false} BitStreamInjective(a: seq<Byte>, b: seq<Byte>)
    requires |a| == |b| && BitStream(a) == BitStream(b)
    ensures a == b
  {
    hide BitsOf;
    if a != [] {
      var n := |a| - 1;
      var s, t := BitStream(a), BitStream(b);
      assert s[..8 * n] == BitStream(a[..n]) && t[..8 * n] == BitStream(b[..n]);
      assert s[8 * n..] == BitsOf(a[n]) && t[8 * n..] == BitsOf(b[n]);
      BitStreamInjective(a[..n], b[..n]);
      BitsOfInjective(a[n], b[n]);
      assert a == a[..n] + [a[n]] && b == b[..n] + [b[n]];
    }
  }

  lemma {:induction false} BitStreamConcat(a: seq<Byte>, b: seq<Byte>)
    ensures BitStream(a + b) == BitStream(a) + BitStream(b)
  {
    hide BitsOf;
    if b == [] {
      assert a + b == a;
    } else {
      var n := |b| - 1;
      BitStreamConcat(a, b[..n]);
      assert (a + b)[..|a + b| - 1] == a + b[..n];
    }
  }

  lemma AbsorbIsSerial(crc: bv32, byte: Byte)
    ensures Absorb(crc, byte) == Serial(crc, BitsOf(byte))
  {
    hide Bit, Bits, Xor, Widen, BitsOf, Serial, Packed;
    SerialIsWord(crc, BitsOf(byte));
    PackedByte(byte);
  }

  /** The register takes the bits of the data one after the other. */
  lemma {:induction false} RegisterIsSerial(crc: bv32, data: seq<Byte>)
    ensures Register(crc, data) == Serial(crc, BitStream(data))
  {
    hide Absorb, BitsOf;
    if data != [] {
      var n := |data| - 1;
      RegisterIsSerial(crc, data[..n]);
      AbsorbIsSerial(Register(crc, data[..n]), data[n]);
      SerialConcat(crc, BitStream(data[..n]), BitsOf(data[n]));
    }
  }

  // ----- What the checksum detects -----

  /** The bits differ at most in 32 places in a row. */
  ghost predicate Burst(a: seq<bool>, b: seq<bool>, k: nat) {
    |a| == |b| && forall i :: 0 <= i < |a| && !(k <= i < k + 32) ==> a[i] == b[i]
  }

  lemma SerialBurst(crc: bv32, a: seq<bool>, b: seq<bool>, k: nat)
    requires Burst(a, b, k) && Serial(crc, a) == Serial(crc, b)
    ensures a == b
  {
    hide Serial;
    var n := |a|;
    var i := if k <= n then k else n;
    var j := if k + 32 <= n then k + 32 else n;
    assert a == a[..i] + (a[i..j] + a[j..]) && b == a[..i] + (b[i..j] + a[j..]);
    SerialConcat(crc, a[..i], a[i..j] + a[j..]);
    SerialConcat(crc, a[..i], b[i..j] + a[j..]);
    var r := Serial(crc, a[..i]);
    SerialConcat(r, a[i..j], a[j..]);
    SerialConcat(r, b[i..j], a[j..]);
    SerialStateInjective(Serial(r, a[i..j]), Serial(r, b[i..j]), a[j..]);
    SerialInjective(r, a[i..j], b[i..j]);
  }

  /** Every burst of up to 32 bits, at any bit position and in data of any length, is detected. */
  lemma BurstIsDetected(a: seq<Byte>, b: seq<Byte>, k: nat)
    requires |a| == |b| && a != b && Burst(BitStream(a), BitStream(b), k)
    ensures Crc(a) != Crc(b)
  {
    hide Register, Xor, Burst, BitStream, Serial;
    if Crc(a) == Crc(b) {
      XorCancel(Register(CRC32_INITIAL, a), Register(CRC32_INITIAL, b), CRC32_INITIAL);
      RegisterIsSerial(CRC32_INITIAL, a);
      RegisterIsSerial(CRC32_INITIAL, b);
      SerialBurst(CRC32_INITIAL, BitStream(a), BitStream(b), k);
      BitStreamInjective(a, b);
    }
  }

  /** In particular a change inside four consecutive bytes. */
  lemma FourBytesAreDetected(front: seq<Byte>, v: seq<Byte>, w: seq<Byte>, back: seq<Byte>)
    requires |v| == |w| <= 4 && v != w
    ensures Crc(front + v + back) != Crc(front + w + back)
  {
    hide Crc, BitStream;
    var a, b := front + v + back, front + w + back;
    BitStreamConcat(front + v, back);
    BitStreamConcat(front + w, back);
    BitStreamConcat(front, v);
    BitStreamConcat(front, w);
    assert a == front + (v + back) && b == front + (w + back);
    assert a[|front|..][..|v|] == v && b[|front|..][..|v|] == w;
    BurstIsDetected(a, b, 8 * |front|);
  }
}
