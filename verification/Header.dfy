/**
 The 16 bytes in front of an application bundle: eight of size, four of version and four of
 CRC-32 over the first twelve, all big-endian. Two independent decoders read them.
 */
module BundleHeader {
  import opened Bytes
  import Crc32

  const HEADER_SIZE := 16

  datatype Header = Header(size: bv64, version: bv32, crc: bv32) {
    predicate IsValid() {
      size != 0 && version != 0
    }
    function Size(): (r: nat)
      ensures r < 0x1_0000_0000_0000_0000
      ensures r == 0 <==> size == 0
    {
      size as nat
    }
  }

  function Wide64(b: Byte): bv64 {
    b as bv64
  }

  function Wide32(b: Byte): bv32 {
    b as bv32
  }

  /** Byte after byte, the way HeaderParser::parse reads. */
  function Big64(b: seq<Byte>): bv64 {
    if b == [] then 0 else (Big64(b[..|b| - 1]) << 8) | Wide64(b[|b| - 1])
  }

  function Big32(b: seq<Byte>): bv32 {
    if b == [] then 0 else (Big32(b[..|b| - 1]) << 8) | Wide32(b[|b| - 1])
  }

  /** All bytes at once, the way the constructor of applicationImage reads. */
  function Unrolled64(b: seq<Byte>): bv64
    requires |b| == 8
  {
    Joined64(b[0], b[1], b[2], b[3], b[4], b[5], b[6], b[7])
  }

  function Joined64(a: Byte, b: Byte, c: Byte, d: Byte, e: Byte, f: Byte, g: Byte, h: Byte): bv64 {
    Wide64(h) | (Wide64(g) << 8) | (Wide64(f) << 16) | (Wide64(e) << 24)
    | (Wide64(d) << 32) | (Wide64(c) << 40) | (Wide64(b) << 48) | (Wide64(a) << 56)
  }

  function Unrolled32(b: seq<Byte>): bv32
    requires |b| == 4
  {
    Joined32(b[0], b[1], b[2], b[3])
  }

  function Joined32(a: Byte, b: Byte, c: Byte, d: Byte): bv32 {
    Wide32(d) | (Wide32(c) << 8) | (Wide32(b) << 16) | (Wide32(a) << 24)
  }

  function Next64(value: bv64, b: Byte): bv64 {
    (value << 8) | Wide64(b)
  }

  function Next32(value: bv32, b: Byte): bv32 {
    (value << 8) | Wide32(b)
  }

  lemma Joined64IsChain(a: Byte, b: Byte, c: Byte, d: Byte, e: Byte, f: Byte, g: Byte, h: Byte)
    ensures Joined64(a, b, c, d, e, f, g, h)
         == Next64(Next64(Next64(Next64(Next64(Next64(Next64(Next64(0, a), b), c), d), e), f), g), h)
  {
  }

  lemma Joined32IsChain(a: Byte, b: Byte, c: Byte, d: Byte)
    ensures Joined32(a, b, c, d) == Next32(Next32(Next32(Next32(0, a), b), c), d)
  {
  }

  lemma Big64Step(b: seq<Byte>, n: nat)
    requires n < |b|
    ensures Big64(b[..n + 1]) == Next64(Big64(b[..n]), b[n])
  {
    assert b[..n + 1][..n] == b[..n];
  }

  lemma Big32Step(b: seq<Byte>, n: nat)
    requires n < |b|
    ensures Big32(b[..n + 1]) == Next32(Big32(b[..n]), b[n])
  {
    assert b[..n + 1][..n] == b[..n];
  }

  lemma Big64OfFour(b: seq<Byte>, n: nat)
    requires n + 4 <= |b|
    ensures Big64(b[..n + 4]) == Next64(Next64(Next64(Next64(Big64(b[..n]), b[n]), b[n + 1]), b[n + 2]), b[n + 3])
  {
    hide Next64, Big64;
    Big64Step(b, n);
    Big64Step(b, n + 1);
    Big64Step(b, n + 2);
    Big64Step(b, n + 3);
  }

  lemma Big64OfNone(b: seq<Byte>)
    ensures Big64(b[..0]) == 0
  {
  }

  /** The two decoders agree on every size field and on every version or checksum field. */
  lemma DecodersAgree64(b: seq<Byte>)
    requires |b| == 8
    ensures Big64(b) == Unrolled64(b)
  {
    hide Next64, Joined64, Big64;
    Joined64IsChain(b[0], b[1], b[2], b[3], b[4], b[5], b[6], b[7]);
    Big64OfNone(b);
    Big64OfFour(b, 0);
    Big64OfFour(b, 4);
    assert b[..8] == b;
  }

  lemma Big32OfNone(b: seq<Byte>)
    ensures Big32(b[..0]) == 0
  {
  }

  lemma DecodersAgree32(b: seq<Byte>)
    requires |b| == 4
    ensures Big32(b) == Unrolled32(b)
  {
    hide Next32, Joined32, Big32;
    Joined32IsChain(b[0], b[1], b[2], b[3]);
    Big32OfNone(b);
    Big32Step(b, 0);
    Big32Step(b, 1);
    Big32Step(b, 2);
    Big32Step(b, 3);
    assert b[..4] == b;
  }

  /** What HeaderParser::parse answers; it does not fail, but a wrong length gives zeros. */
  function Parsed(data: seq<Byte>): Header {
    if |data| != HEADER_SIZE then Header(0, 0, 0)
    else Header(Big64(data[..8]), Big32(data[8..12]), Big32(data[12..16]))
  }

  /** HeaderParser::parse. */
  method Parse(data: seq<Byte>) returns (header: Header)
    ensures header == Parsed(data)
  {
    hide Big64, Big32, Wide64, Wide32;
    if |data| != HEADER_SIZE {
      return Header(0, 0, 0);
    }
    var size := ParseBig64(data[..8]);
    var version := ParseBig32(data[8..12]);
    var crc := ParseBig32(data[12..16]);
    return Header(size, version, crc);
  }

  method ParseBig64(data: seq<Byte>) returns (value: bv64)
    ensures value == Big64(data)
  {
    hide Wide64;
    value := 0;
    for i := 0 to |data|
      invariant value == Big64(data[..i])
    {
      value := (value << 8) | Wide64(data[i]);
      assert data[..i + 1][..i] == data[..i];
    }
    assert data[..|data|] == data;
  }

  method ParseBig32(data: seq<Byte>) returns (value: bv32)
    ensures value == Big32(data)
  {
    hide Wide32;
    value := 0;
    for i := 0 to |data|
      invariant value == Big32(data[..i])
    {
      value := (value << 8) | Wide32(data[i]);
      assert data[..i + 1][..i] == data[..i];
    }
    assert data[..|data|] == data;
  }

  /** Where the fields stand, and what their bytes are worth. */
  lemma FieldsAre(data: seq<Byte>)
    requires |data| == 16
    ensures Parsed(data).size ==
      (data[0] as bv64 << 56) | (data[1] as bv64 << 48) | (data[2] as bv64 << 40) | (data[3] as bv64 << 32)
      | (data[4] as bv64 << 24) | (data[5] as bv64 << 16) | (data[6] as bv64 << 8) | data[7] as bv64
    ensures Parsed(data).version ==
      (data[8] as bv32 << 24) | (data[9] as bv32 << 16) | (data[10] as bv32 << 8) | data[11] as bv32
    ensures Parsed(data).crc ==
      (data[12] as bv32 << 24) | (data[13] as bv32 << 16) | (data[14] as bv32 << 8) | data[15] as bv32
    ensures Parsed(data).IsValid() <==> Parsed(data).size != 0 && Parsed(data).version != 0
    ensures Parsed(data).Size() == Parsed(data).size as nat
  {
    DecodersAgree64(data[..8]);
    DecodersAgree32(data[8..12]);
    DecodersAgree32(data[12..16]);
    hide Big64, Big32;
  }

  predicate CrcHolds(data: seq<Byte>) {
    |data| == HEADER_SIZE && Parsed(data).crc == Crc32.Crc(data[..12])
  }

  /** HeaderParser::validate_crc; its loop is the one of compute_crc32. */
  method ValidateCrc(header: Header, data: seq<Byte>) returns (ok: bool)
    ensures ok <==> |data| == HEADER_SIZE && header.crc == Crc32.Crc(data[..12])
  {
    if |data| != HEADER_SIZE {
      return false;
    }
    var computed := Crc32.ComputeCrc32(data[..12]);
    return computed == header.crc;
  }

  /** crc32 of zlib, which continues an earlier checksum. */
  function Continued(crc: bv32, data: seq<Byte>): bv32 {
    Crc32.Xor(Crc32.Register(Crc32.Xor(crc, Crc32.CRC32_INITIAL), data), Crc32.CRC32_INITIAL)
  }

  lemma FromZero()
    ensures Crc32.Xor(0, Crc32.CRC32_INITIAL) == Crc32.CRC32_INITIAL
  {
  }

  /** The constructor's checksum of 8 and then 4 bytes is the checksum of the 12 bytes. */
  lemma ContinuedChecksum(a: seq<Byte>, b: seq<Byte>)
    ensures Continued(Continued(0, a), b) == Crc32.Crc(a + b)
  {
    hide Crc32.Xor, Crc32.Register;
    FromZero();
    Crc32.RegisterConcat(Crc32.CRC32_INITIAL, a, b);
    Crc32.XorSelf(Crc32.Register(Crc32.CRC32_INITIAL, a), Crc32.CRC32_INITIAL);
  }

  // ----- Writing a header -----

  function Octet64(v: bv64, i: nat): Byte {
    var shifted :=
      if i == 0 then v >> 56
      else if i == 1 then v >> 48
      else if i == 2 then v >> 40
      else if i == 3 then v >> 32
      else if i == 4 then v >> 24
      else if i == 5 then v >> 16
      else if i == 6 then v >> 8
      else v;
    (shifted & 0xFF) as Byte
  }

  function Octet32(v: bv32, i: nat): Byte {
    var shifted :=
      if i == 0 then v >> 24
      else if i == 1 then v >> 16
      else if i == 2 then v >> 8
      else v;
    (shifted & 0xFF) as Byte
  }

  function Encode64(v: bv64): (r: seq<Byte>)
    ensures |r| == 8
  {
    [Octet64(v, 0), Octet64(v, 1), Octet64(v, 2), Octet64(v, 3),
     Octet64(v, 4), Octet64(v, 5), Octet64(v, 6), Octet64(v, 7)]
  }

  function Encode32(v: bv32): (r: seq<Byte>)
    ensures |r| == 4
  {
    [Octet32(v, 0), Octet32(v, 1), Octet32(v, 2), Octet32(v, 3)]
  }

  lemma JoinedOfOctets64(v: bv64)
    ensures Joined64(Octet64(v, 0), Octet64(v, 1), Octet64(v, 2), Octet64(v, 3),
                     Octet64(v, 4), Octet64(v, 5), Octet64(v, 6), Octet64(v, 7)) == v
  {
  }

  lemma JoinedOfOctets32(v: bv32)
    ensures Joined32(Octet32(v, 0), Octet32(v, 1), Octet32(v, 2), Octet32(v, 3)) == v
  {
  }

  lemma OctetsOfJoined64(v: bv64, a: Byte, b: Byte, c: Byte, d: Byte, e: Byte, f: Byte, g: Byte, h: Byte)
    requires v == Joined64(a, b, c, d, e, f, g, h)
    ensures Octet64(v, 0) == a && Octet64(v, 1) == b && Octet64(v, 2) == c && Octet64(v, 3) == d
    ensures Octet64(v, 4) == e && Octet64(v, 5) == f && Octet64(v, 6) == g && Octet64(v, 7) == h
  {
  }

  lemma OctetsOfJoined32(v: bv32, a: Byte, b: Byte, c: Byte, d: Byte)
    requires v == Joined32(a, b, c, d)
    ensures Octet32(v, 0) == a && Octet32(v, 1) == b && Octet32(v, 2) == c && Octet32(v, 3) == d
  {
  }

  /** Encoding and decoding are inverse to each other. */
  lemma Decode64(v: bv64)
    ensures Big64(Encode64(v)) == v
  {
    hide Joined64, Octet64, Big64;
    var b := Encode64(v);
    DecodersAgree64(b);
    JoinedOfOctets64(v);
  }

  lemma Decode32(v: bv32)
    ensures Big32(Encode32(v)) == v
  {
    hide Joined32, Octet32, Big32;
    DecodersAgree32(Encode32(v));
    JoinedOfOctets32(v);
  }

  lemma Recode64(b: seq<Byte>)
    requires |b| == 8
    ensures Encode64(Big64(b)) == b
  {
    hide Joined64, Octet64, Big64;
    DecodersAgree64(b);
    var v := Big64(b);
    OctetsOfJoined64(v, b[0], b[1], b[2], b[3], b[4], b[5], b[6], b[7]);
  }

  lemma Recode32(b: seq<Byte>)
    requires |b| == 4
    ensures Encode32(Big32(b)) == b
  {
    hide Joined32, Octet32, Big32;
    DecodersAgree32(b);
    var v := Big32(b);
    OctetsOfJoined32(v, b[0], b[1], b[2], b[3]);
  }

  function HeaderBytes(size: bv64, version: bv32): (r: seq<Byte>)
    ensures |r| == HEADER_SIZE
  {
    var front := Encode64(size) + Encode32(version);
    front + Encode32(Crc32.Crc(front))
  }

  lemma HeaderRoundTrip(size: bv64, version: bv32)
    ensures var data := HeaderBytes(size, version);
      Parsed(data).size == size && Parsed(data).version == version && CrcHolds(data)
  {
    hide Encode64, Encode32, Big64, Big32, Crc32.Crc;
    var front := Encode64(size) + Encode32(version);
    var data := HeaderBytes(size, version);
    assert data[..8] == Encode64(size) && data[8..12] == Encode32(version) && data[..12] == front;
    assert data[12..16] == Encode32(Crc32.Crc(front));
    Decode64(size);
    Decode32(version);
    Decode32(Crc32.Crc(front));
  }

  /** The headers with a valid checksum are exactly the encoded ones. */
  lemma HeaderIsEncoded(data: seq<Byte>)
    requires |data| == HEADER_SIZE
    ensures CrcHolds(data) <==> data == HeaderBytes(Parsed(data).size, Parsed(data).version)
  {
    hide Encode64, Encode32, Big64, Big32, Crc32.Crc;
    var h := Parsed(data);
    HeaderRoundTrip(h.size, h.version);
    if CrcHolds(data) {
      Recode64(data[..8]);
      Recode32(data[8..12]);
      Recode32(data[12..16]);
      assert data[..12] == Encode64(h.size) + Encode32(h.version);
      assert data == data[..12] + data[12..16];
    }
  }

  lemma SameTail(x: seq<Byte>, y: seq<Byte>)
    requires |x| == |y| == HEADER_SIZE && x[12..] == y[12..]
    ensures x[12..16] == y[12..16] && (x[..12] == y[..12] ==> x == y)
  {
    assert x[12..16] == x[12..] && y[12..16] == y[12..];
    assert x == x[..12] + x[12..] && y == y[..12] + y[12..];
  }

  /** A valid header in which a burst of up to 32 bits hits size and version is not valid any more. */
  lemma DamageIsDetected(data: seq<Byte>, damaged: seq<Byte>, k: nat)
    requires CrcHolds(data) && |damaged| == HEADER_SIZE && damaged != data && damaged[12..] == data[12..]
    requires Crc32.Burst(Crc32.BitStream(data[..12]), Crc32.BitStream(damaged[..12]), k)
    ensures !CrcHolds(damaged)
  {
    hide Big32, Big64, Crc32.Crc, Crc32.BitStream, Crc32.Burst;
    SameTail(data, damaged);
    Crc32.BurstIsDetected(data[..12], damaged[..12], k);
  }
}
