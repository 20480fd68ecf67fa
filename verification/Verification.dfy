/**
 Verification and installation of an application bundle (updateApplication.cpp), and the round
 trip of a bundle: what is verified is what is installed.
 */
module BundleVerification {
  import opened Bytes
  import opened Results
  import opened Streams
  import opened BundleHeader
  import opened PemScan
  import opened ApplicationBundle
  import Crc32

  /** The answers of the libraries: whether a PEM block parses, whether a chain leads to the keyring,
      what time a text stands for, from when to when a certificate is valid, and whether the signature
      covers content and timestamp. */
  datatype Trust = Trust(
    parses: seq<Byte> -> bool,
    chain: seq<seq<Byte>> -> bool,
    date: seq<Byte> -> Option<int>,
    notBefore: seq<Byte> -> int,
    notAfter: seq<Byte> -> int,
    signed: (seq<Byte>, seq<Byte>, seq<Byte>, seq<Byte>) -> bool)

  /** The certificate was valid at the time that the timestamp names. */
  predicate Timely(trust: Trust, stamp: seq<Byte>, certificate: seq<Byte>) {
    var time := ParsedTime(trust.date, stamp);
    time.Success? && trust.notBefore(certificate) <= time.value <= trust.notAfter(certificate)
  }

  function Readable(blocks: seq<seq<Byte>>, parses: seq<Byte> -> bool): seq<seq<Byte>> {
    if blocks == [] then []
    else
      var front := Readable(blocks[..|blocks| - 1], parses);
      var last := blocks[|blocks| - 1];
      if parses(last) then front + [last] else front
  }

  /** Of the blocks exactly those that parse are kept, in their order. */
  ghost predicate Keeps(idx: seq<nat>, blocks: seq<seq<Byte>>, parses: seq<Byte> -> bool, kept: seq<seq<Byte>>) {
    && |idx| == |kept|
    && (forall i :: 0 <= i < |idx| ==> idx[i] < |blocks| && kept[i] == blocks[idx[i]])
    && (forall i, j :: 0 <= i < j < |idx| ==> idx[i] < idx[j])
    && (forall j :: 0 <= j < |blocks| ==> (j in idx <==> parses(blocks[j])))
  }

  ghost predicate AreKept(blocks: seq<seq<Byte>>, parses: seq<Byte> -> bool, kept: seq<seq<Byte>>) {
    exists idx :: Keeps(idx, blocks, parses, kept)
  }

  lemma {:induction false} ReadableIsKept(blocks: seq<seq<Byte>>, parses: seq<Byte> -> bool) returns (idx: seq<nat>)
    ensures Keeps(idx, blocks, parses, Readable(blocks, parses))
  {
    idx := [];
    if blocks != [] {
      var n := |blocks| - 1;
      idx := ReadableIsKept(blocks[..n], parses);
      assert forall j :: 0 <= j < n ==> blocks[..n][j] == blocks[j];
      if parses(blocks[n]) {
        idx := idx + [n];
      }
    }
  }

  lemma LastIsLargest(idx: seq<nat>, n: nat)
    requires n in idx && (forall i :: 0 <= i < |idx| ==> idx[i] <= n)
    requires forall i, j :: 0 <= i < j < |idx| ==> idx[i] < idx[j]
    ensures idx[|idx| - 1] == n && forall i :: 0 <= i < |idx| - 1 ==> idx[i] < n
  {
    var k :| 0 <= k < |idx| && idx[k] == n;
    assert idx[k] <= idx[|idx| - 1];
  }

  lemma LastIsKept(idx: seq<nat>, blocks: seq<seq<Byte>>, parses: seq<Byte> -> bool, kept: seq<seq<Byte>>)
    requires Keeps(idx, blocks, parses, kept) && blocks != [] && parses(blocks[|blocks| - 1])
    ensures var n, m := |blocks| - 1, |idx| - 1;
      m >= 0 && Keeps(idx[..m], blocks[..n], parses, kept[..m]) && kept == kept[..m] + [blocks[n]]
  {
    var n, m := |blocks| - 1, |idx| - 1;
    LastIsLargest(idx, n);
    forall j | 0 <= j < n ensures j in idx[..m] <==> parses(blocks[..n][j]) {
      InFront(idx, n, j);
    }
  }

  lemma InFront(idx: seq<nat>, n: nat, j: nat)
    requires idx != [] && idx[|idx| - 1] == n && j < n
    ensures j in idx[..|idx| - 1] <==> j in idx
  {
    assert idx == idx[..|idx| - 1] + [n];
  }

  lemma LastIsDropped(idx: seq<nat>, blocks: seq<seq<Byte>>, parses: seq<Byte> -> bool, kept: seq<seq<Byte>>)
    requires Keeps(idx, blocks, parses, kept) && blocks != [] && !parses(blocks[|blocks| - 1])
    ensures Keeps(idx, blocks[..|blocks| - 1], parses, kept)
  {
  }

  lemma {:induction false} IncreasingFits(idx: seq<nat>, n: nat)
    requires forall i :: 0 <= i < |idx| ==> idx[i] < n
    requires forall i, j :: 0 <= i < j < |idx| ==> idx[i] < idx[j]
    ensures |idx| <= n
  {
    if idx != [] {
      IncreasingFits(idx[..|idx| - 1], idx[|idx| - 1]);
    }
  }

  /** Nothing else is kept in that way. */
  lemma {:induction false} KeptIsReadable(idx: seq<nat>, blocks: seq<seq<Byte>>, parses: seq<Byte> -> bool,
                                          kept: seq<seq<Byte>>)
    requires Keeps(idx, blocks, parses, kept)
    ensures kept == Readable(blocks, parses)
  {
    IncreasingFits(idx, |blocks|);
    if blocks != [] {
      hide Keeps;
      var n, m := |blocks| - 1, |idx| - 1;
      if parses(blocks[n]) {
        LastIsKept(idx, blocks, parses, kept);
        KeptIsReadable(idx[..m], blocks[..n], parses, kept[..m]);
      } else {
        LastIsDropped(idx, blocks, parses, kept);
        KeptIsReadable(idx, blocks[..n], parses, kept);
      }
    }
  }

  /** The signer is the first block that parses. */
  lemma FirstReadable(blocks: seq<seq<Byte>>, parses: seq<Byte> -> bool, k: nat)
    requires k < |blocks| && parses(blocks[k]) && forall j :: 0 <= j < k ==> !parses(blocks[j])
    ensures var kept := Readable(blocks, parses); kept != [] && kept[0] == blocks[k]
  {
    hide Readable;
    var idx := ReadableIsKept(blocks, parses);
    assert k in idx;
    assert parses(blocks[idx[0]]);
  }

  function CertificatesOf(data: seq<Byte>, parses: seq<Byte> -> bool): Result<seq<seq<Byte>>> {
    if |data| < HEADER_SIZE || !HeaderOf(data).IsValid() then Failure(BundleRejected)
    else
      var at := ToOffset(HEADER_SIZE + SizeOf(data));
      if at < 0 then Failure(BundleRejected)
      else Success(Readable(CertificatesIn(From(data, at)), parses))
  }

  function Signers(data: seq<Byte>, trust: Trust): seq<seq<Byte>>
    requires HEADER_SIZE <= |data| && HEADER_SIZE + SizeOf(data) <= |data|
  {
    Readable(CertificatesIn(data[HEADER_SIZE + SizeOf(data)..]), trust.parses)
  }

  /** What a bundle has to satisfy. */
  predicate IsVerified(data: seq<Byte>, trust: Trust)
    requires HEADER_SIZE < |data|
  {
    var size := SizeOf(data);
    && HeaderOf(data).IsValid()
    && CrcHolds(data[..HEADER_SIZE])
    && HEADER_SIZE + size + SIZE_DATE_SIGN <= |data|
    && SignatureAt(data, size).Some?
    && var certificates := Signers(data, trust);
    && certificates != []
    && trust.chain(certificates)
    && Timely(trust, TimestampAt(data, size), certificates[0])
    && trust.signed(certificates[0], Content(data, size), TimestampAt(data, size), SignatureAt(data, size).value)
  }

  /** The constructor of applicationImage. */
  method Open(data: seq<Byte>) returns (r: Result<ApplicationImage>)
    requires |data| < OFFSET_LIMIT
    ensures OpenError(data).Some? ==> r == Failure(OpenError(data).value)
    ensures OpenError(data).None? ==>
        && r.Success? && fresh(r.value) && fresh(r.value.stream) && r.value.Valid()
        && r.value.stream.data == data && r.value.stream.Good()
  {
    hide Big64, Big32, Unrolled64, Unrolled32, Crc32.Crc, Continued;
    if |data| <= HEADER_SIZE {
      return Failure(ImageTooSmall);
    }
    var sizeBytes := new Byte[8];
    var versionBytes := new Byte[4];
    var crcBytes := new Byte[4];
    var stream := new Stream(data);
    stream.Seek(0);
    stream.Read(sizeBytes, 8);
    stream.Read(versionBytes, 4);
    stream.Read(crcBytes, 4);
    HeaderParts(data, sizeBytes[..], versionBytes[..], crcBytes[..]);
    var header := Header(Unrolled64(sizeBytes[..]), Unrolled32(versionBytes[..]), Unrolled32(crcBytes[..]));
    var calculated := Continued(Continued(0, sizeBytes[..]), versionBytes[..]);
    if header.version != 1 {
      return Failure(WrongHeaderVersion);
    }
    if calculated != header.crc {
      return Failure(WrongHeaderChecksum);
    }
    var image := new ApplicationImage.Wrap(stream, header.Size());
    return Success(image);
  }

  /** The constructor decodes what HeaderParser::parse decodes, and computes its checksum. */
  lemma HeaderParts(data: seq<Byte>, a: seq<Byte>, b: seq<Byte>, c: seq<Byte>)
    requires |data| >= HEADER_SIZE && a == data[0..8] && b == data[8..12] && c == data[12..16]
    ensures HeaderOf(data) == Header(Unrolled64(a), Unrolled32(b), Unrolled32(c))
    ensures CrcHolds(data[..HEADER_SIZE]) <==> Continued(Continued(0, a), b) == Unrolled32(c)
  {
    hide Big64, Big32, Unrolled64, Unrolled32, Crc32.Crc, Continued;
    var h := data[..HEADER_SIZE];
    assert h[..8] == a && h[8..12] == b && h[12..16] == c && h[..12] == a + b;
    DecodersAgree64(a);
    DecodersAgree32(b);
    DecodersAgree32(c);
    ContinuedChecksum(a, b);
  }

  /** When there is no answer: the header is cut off or empty, or its size is no position. */
  lemma CertificatesAreRefused(data: seq<Byte>, parses: seq<Byte> -> bool)
    requires |data| < OFFSET_LIMIT
    ensures CertificatesOf(data, parses).Failure? <==>
      || |data| < 16 || Parsed(data[..16]).size == 0 || Parsed(data[..16]).version == 0
      || 0x8000_0000_0000_0000 <= 16 + Parsed(data[..16]).Size() < 0x1_0000_0000_0000_0000
  {
    hide Parsed, ToOffset, CertificatesIn, From, Readable, Header.Size;
    if |data| >= 16 {
      OffsetSign(16 + SizeOf(data));
    }
  }

  lemma OffsetSign(n: nat)
    requires n < 0x1_8000_0000_0000_0000
    ensures ToOffset(n) < 0 <==> 0x8000_0000_0000_0000 <= n < 0x1_0000_0000_0000_0000
  {
  }

  /** extract_certificates_from_image, with its own stream. */
  method ExtractCertificates(data: seq<Byte>, parses: seq<Byte> -> bool) returns (r: Result<seq<seq<Byte>>>)
    requires |data| < OFFSET_LIMIT
    ensures r == CertificatesOf(data, parses)
    ensures r.Success? ==>
      |data| >= 16 && AreKept(CertificatesIn(From(data, ToOffset(16 + SizeOf(data)))), parses, r.value)
  {
    hide Big64, Big32, CrcHolds, Scan, Texts, Readable, Keeps;
    if |data| < HEADER_SIZE {
      return Failure(BundleRejected);
    }
    var stream := new Stream(data);
    var head := new Byte[HEADER_SIZE];
    stream.Read(head, HEADER_SIZE);
    assert head[..] == data[..HEADER_SIZE];
    var header := Parse(head[..]);
    if !header.IsValid() {
      return Failure(BundleRejected);
    }
    stream.Seek(ToOffset(HEADER_SIZE + header.Size()));
    if stream.failed {
      return Failure(BundleRejected);
    }
    var accumulated := ReadToEnd(stream);
    var blocks := ScanBlocks(accumulated);
    var certificates := KeepReadable(blocks, parses);
    ghost var idx := ReadableIsKept(blocks, parses);
    return Success(certificates);
  }

  /** Its last loop: a block that does not parse is skipped. */
  method KeepReadable(blocks: seq<seq<Byte>>, parses: seq<Byte> -> bool) returns (certificates: seq<seq<Byte>>)
    ensures certificates == Readable(blocks, parses)
  {
    certificates := [];
    for i := 0 to |blocks|
      invariant certificates == Readable(blocks[..i], parses)
    {
      assert blocks[..i + 1][..i] == blocks[..i];
      if parses(blocks[i]) {
        certificates := certificates + [blocks[i]];
      }
    }
    assert blocks[..|blocks|] == blocks;
  }

  method ReadToEnd(stream: Stream) returns (accumulated: seq<Byte>)
    requires stream.Good()
    modifies stream
    ensures accumulated == From(stream.data, old(stream.pos))
  {
    var buffer := new Byte[CHUNK_SIZE];
    accumulated := [];
    ghost var start := stream.pos;
    while stream.Good() && !stream.eof
      invariant start <= stream.pos
      invariant stream.pos > start ==> stream.pos <= |stream.data|
      invariant accumulated == if stream.pos <= |stream.data| then stream.data[start..stream.pos] else []
      invariant !stream.Good() ==> stream.pos >= |stream.data|
      decreases stream.Good(), |stream.data| - stream.pos
    {
      stream.Read(buffer, CHUNK_SIZE);
      var readBytes := stream.gcount;
      if readBytes > 0 {
        accumulated := accumulated + buffer[..readBytes];
      }
    }
  }

  /** Steps 1 and 2 of verify_application_bundle: the certificates and the time of signing. */
  method VerifySigner(image: ApplicationImage, trust: Trust) returns (signer: Option<seq<Byte>>)
    requires image.Valid() && image.stream.Good()
    modifies image.stream
    ensures var data := image.stream.data;
      HEADER_SIZE + image.size + SIZE_DATE_SIGN <= |data| ==>
        var signers := Signers(data, trust);
        signer == if HeaderOf(data).IsValid() && signers != [] && trust.chain(signers)
                       && Timely(trust, TimestampAt(data, image.size), signers[0])
                  then Some(signers[0]) else None
  {
    hide SizeOf, HeaderOf, CertificatesIn, Readable, TimestampAt;
    var data := image.stream.data;
    var certificates := ExtractCertificates(data, trust.parses);
    if certificates.Failure? || certificates.value == [] || !trust.chain(certificates.value) {
      return None;
    }
    var signing := image.GetTimeOfSigning(trust.date);
    if signing.Failure? {
      return None;
    }
    if signing.value < trust.notBefore(certificates.value[0]) || signing.value > trust.notAfter(certificates.value[0]) {
      return None;
    }
    return Some(certificates.value[0]);
  }

  /** Steps 3 and 4: the header and the signature over content and timestamp. */
  method VerifyContent(image: ApplicationImage, signer: seq<Byte>, trust: Trust, chunk: nat) returns (ok: bool)
    requires image.Valid() && 0 < chunk < 0x1_0000_0000
    modifies image.stream
    ensures var data, size := image.stream.data, image.size;
      ok <==>
        && HeaderOf(data).IsValid() && CrcHolds(data[..HEADER_SIZE])
        && HEADER_SIZE + size + SIZE_DATE_SIGN <= |data|
        && SignatureAt(data, size).Some?
        && trust.signed(signer, Content(data, size), TimestampAt(data, size), SignatureAt(data, size).value)
  {
    hide Parsed, SignatureAt, TimestampAt, Content, Crc32.Crc;
    var bytes := image.GetHeader();
    var header := Parse(bytes);
    var crcOk := ValidateCrc(header, bytes);
    if !header.IsValid() || !crcOk {
      return false;
    }
    var timestamp := image.GetTimestamp();
    var signature := image.GetSignature();
    if timestamp.Failure? || signature.Failure? {
      return false;
    }
    var read, content := image.ReadImgContentOnly(chunk, header.Size());
    if read.Failure? {
      return false;
    }
    return trust.signed(signer, content, timestamp.value, signature.value);
  }

  /** verify_application_bundle; every exception on the way means refusal. */
  method VerifyBundle(image: ApplicationImage, trust: Trust, chunk: nat) returns (ok: bool)
    requires image.Valid() && image.stream.Good() && 0 < chunk < 0x1_0000_0000
    modifies image.stream
    ensures ok <==> IsVerified(image.stream.data, trust)
  {
    hide HeaderOf, SizeOf, CertificatesIn, SignatureAt, Content, TimestampAt, Readable, CrcHolds;
    var signer := VerifySigner(image, trust);
    if signer.None? {
      return false;
    }
    ok := VerifyContent(image, signer.value, trust, chunk);
  }

  /** install and perform_installation: verified through one reader, copied through another one
      that is opened again. The file that ends up in the slot is the content that was signed. */
  method InstallBundle(data: seq<Byte>, trust: Trust, chunk: nat, storage: Storage)
    returns (r: Result<seq<Byte>>)
    requires |data| < OFFSET_LIMIT && 0 < chunk < 0x1_0000_0000
    ensures r.Success? <==> OpenError(data).None? && IsVerified(data, trust) && storage.Takes(SizeOf(data))
    ensures r.Success? ==>
        && HEADER_SIZE + SizeOf(data) + SIZE_DATE_SIGN <= |data| && SignatureAt(data, SizeOf(data)).Some?
        && r.value == Content(data, SizeOf(data))
        && exists signer :: trust.parses(signer)
             && trust.signed(signer, r.value, TimestampAt(data, SizeOf(data)), SignatureAt(data, SizeOf(data)).value)
  {
    hide Parsed, CertificatesIn, SignatureIn, Readable, CrcHolds;
    var first := Open(data);
    if first.Failure? {
      return Failure(first.error);
    }
    var ok := VerifyBundle(first.value, trust, chunk);
    if !ok {
      return Failure(BundleRejected);
    }
    var second := Open(data);
    var copied, file := second.value.CopyImage(chunk, storage);
    if copied.Failure? {
      return Failure(copied.error);
    }
    ReadableParses(CertificatesIn(data[HEADER_SIZE + SizeOf(data)..]), trust.parses);
    assert trust.parses(Signers(data, trust)[0]);
    return Success(file.value);
  }

  lemma {:induction false} ReadableParses(blocks: seq<seq<Byte>>, parses: seq<Byte> -> bool)
    ensures forall c :: c in Readable(blocks, parses) ==> c in blocks && parses(c)
  {
    if blocks != [] {
      ReadableParses(blocks[..|blocks| - 1], parses);
    }
  }

  // ----- Round trip -----

  /** The certificates start on a line of their own. */
  function Trailer(certificates: seq<Item>, tail: seq<Byte>): seq<Byte> {
    if certificates == [] then [] else [NEWLINE] + Layout(certificates, tail)
  }

  /** A bundle as the code reads it. */
  function Bundle(size: bv64, image: seq<Byte>, timestamp: seq<Byte>, signature: seq<Byte>,
                  certificates: seq<Item>, tail: seq<Byte>): seq<Byte>
  {
    HeaderBytes(size, 1) + (image + (timestamp + (signature + Trailer(certificates, tail))))
  }

  /** No certificate marker anywhere in the text. */
  ghost predicate MarkerFree(x: seq<Byte>) {
    forall j :: !Occurs(x, PemBegin(), j)
  }

  ghost predicate IsBundle(size: bv64, image: seq<Byte>, timestamp: seq<Byte>, signature: seq<Byte>,
                           certificates: seq<Item>, tail: seq<Byte>)
  {
    && |image| == size as nat
    && |timestamp| == SIZE_DATE_SIGN
    && signature != []
    && MarkerFree(timestamp + signature)
    && (certificates != [] ==> certificates[0].gap == [] && WellFormed(certificates, tail))
    && |Bundle(size, image, timestamp, signature, certificates, tail)| < OFFSET_LIMIT
  }

  lemma BundleHeaderIsRead(size: bv64, rest: seq<Byte>)
    requires rest != []
    ensures var data := HeaderBytes(size, 1) + rest;
      OpenError(data).None? && SizeOf(data) == size as nat && CrcHolds(data[..HEADER_SIZE])
      && HeaderOf(data).size == size && HeaderOf(data).version == 1
      && (HeaderOf(data).IsValid() <==> SizeOf(data) != 0)
  {
    hide Parsed, HeaderBytes, CrcHolds;
    HeaderRoundTrip(size, 1);
    assert (HeaderBytes(size, 1) + rest)[..HEADER_SIZE] == HeaderBytes(size, 1);
  }

  /** A marker that holds no line feed does not reach across one. */
  lemma ClearOfLine(x: seq<Byte>)
    requires MarkerFree(x)
    ensures Clear(x + [NEWLINE], PemBegin())
  {
    hide PemBegin;
    var m := PemBegin();
    var s := x + [NEWLINE] + m;
    forall j | 0 <= j <= |x| ensures !Occurs(s, m, j) {
      if j + |m| <= |x| {
        assert s[j..j + |m|] == x[j..j + |m|];
        assert !Occurs(x, m, j);
      } else if j + |m| <= |s| {
        assert s[j..j + |m|][|x| - j] == NEWLINE;
        assert m[|x| - j] in m;
      }
    }
  }

  lemma ClearOfCertificateLine(x: seq<Byte>)
    requires MarkerFree(x)
    ensures Clear(x, CertificateLine())
  {
    hide PemBegin;
    var m := CertificateLine();
    assert m[1..] == PemBegin();
    var s := x + m;
    forall j | 0 <= j < |x| ensures !Occurs(s, m, j) {
      if j + |m| <= |x| {
        assert s[j..j + |m|][1..] == x[j + 1..j + 1 + |PemBegin()|];
        assert !Occurs(x, PemBegin(), j + 1);
      } else if j + |m| <= |s| {
        assert s[j..j + |m|][|x| - j] == NEWLINE;
        assert m[|x| - j] == PemBegin()[|x| - j - 1];
      }
    }
  }

  lemma NoLineInMarkerFree(x: seq<Byte>)
    requires MarkerFree(x)
    ensures Find(x, CertificateLine(), 0) == None
  {
    hide PemBegin, Find, First;
    var m := CertificateLine();
    assert m[1..] == PemBegin();
    forall j | 0 <= j ensures !Occurs(x, m, j) {
      if j + |m| <= |x| {
        assert x[j..j + |m|][1..] == x[j + 1..j + 1 + |PemBegin()|];
        assert !Occurs(x, PemBegin(), j + 1);
      }
    }
    var r := Find(x, m, 0);
    assert r.Some? ==> Occurs(x, m, r.value) by {
      OccursWhereFound(x, m);
    }
  }

  lemma OccursWhereFound(x: seq<Byte>, m: seq<Byte>)
    ensures Find(x, m, 0).Some? ==> Occurs(x, m, Find(x, m, 0).value)
  {
  }

  lemma EndIsMarkerFree(x: seq<Byte>, y: seq<Byte>)
    requires MarkerFree(x + y)
    ensures MarkerFree(y)
  {
    hide PemBegin;
    forall j | 0 <= j ensures !Occurs(y, PemBegin(), j) {
      OccursShifted(x, y, PemBegin(), j);
    }
  }

  lemma BlockStartsWithMarker(item: Item, rest: seq<Byte>) returns (inner: seq<Byte>)
    ensures Block(item) + rest == PemBegin() + inner
  {
    hide PemBegin, PemEnd;
    inner := item.body + PemEnd() + (if item.newline then [NEWLINE] else []) + rest;
  }

  lemma LayoutOfFirst(items: seq<Item>, tail: seq<Byte>)
    requires items != []
    ensures Layout(items, tail) == items[0].gap + (Block(items[0]) + Layout(items[1..], tail))
    ensures items[0].gap == [] ==> Layout(items, tail) == Block(items[0]) + Layout(items[1..], tail)
  {
    hide Block;
  }

  lemma TrailerStartsWithLine(certificates: seq<Item>, tail: seq<Byte>) returns (inner: seq<Byte>)
    requires certificates != [] && certificates[0].gap == []
    ensures Trailer(certificates, tail) == CertificateLine() + inner
  {
    hide PemBegin, Block, Layout;
    inner := BlockStartsWithMarker(certificates[0], Layout(certificates[1..], tail));
    LayoutOfFirst(certificates, tail);
    assert [NEWLINE] + (PemBegin() + inner) == CertificateLine() + inner;
  }

  /** The signature ends where the certificates begin. */
  lemma SignatureIsRead(signature: seq<Byte>, certificates: seq<Item>, tail: seq<Byte>)
    requires MarkerFree(signature)
    requires certificates != [] ==> certificates[0].gap == []
    ensures SignatureIn(signature + Trailer(certificates, tail)) == signature
  {
    hide PemBegin, Find, First, Absent, Occurs, Clear, MarkerFree, CertificateLine, Layout;
    if certificates == [] {
      NoLineInMarkerFree(signature);
      assert signature + [] == signature;
    } else {
      var inner := TrailerStartsWithLine(certificates, tail);
      ClearOfCertificateLine(signature);
      FindBehindClear([], signature, CertificateLine(), inner);
      assert [] + (signature + (CertificateLine() + inner)) == signature + (CertificateLine() + inner);
    }
  }

  lemma MarkerFreeHasNoBlock(x: seq<Byte>)
    requires MarkerFree(x)
    ensures NoBlock(x, 0)
  {
    hide PemBegin, PemEnd;
  }

  /** What stands before the first certificate can be counted as its gap. */
  lemma GapGrows(front: seq<Byte>, certificates: seq<Item>, tail: seq<Byte>) returns (items: seq<Item>)
    requires certificates != [] && certificates[0].gap == [] && WellFormed(certificates, tail)
    requires Clear(front, PemBegin())
    ensures WellFormed(items, tail) && Layout(items, tail) == front + Layout(certificates, tail)
    ensures Blocks(items) == Blocks(certificates)
  {
    hide PemBegin, PemEnd, Clear;
    var first := certificates[0].(gap := front);
    items := [first] + certificates[1..];
    assert items[1..] == certificates[1..];
    assert Block(first) == Block(certificates[0]);
    hide Block, WellFormed, Layout;
    LayoutOfFirst(items, tail);
    LayoutOfFirst(certificates, tail);
  }

  lemma NoCertificatesAreRead(front: seq<Byte>)
    requires MarkerFree(front)
    ensures CertificatesIn(front + []) == Blocks([])
  {
    hide PemBegin, PemEnd, Scan, Texts, MarkerFree, NoBlock;
    MarkerFreeHasNoBlock(front);
    ItemsAreFound([], front);
    assert front + [] == front;
  }

  /** The scan skips timestamp and signature and finds the certificates. */
  lemma CertificatesAreRead(front: seq<Byte>, certificates: seq<Item>, tail: seq<Byte>)
    requires MarkerFree(front)
    requires certificates != [] ==> certificates[0].gap == [] && WellFormed(certificates, tail)
    ensures CertificatesIn(front + Trailer(certificates, tail)) == Blocks(certificates)
  {
    hide PemBegin, PemEnd, Scan, Texts, Clear, MarkerFree, Block, NoBlock, WellFormed, Layout, Blocks;
    if certificates == [] {
      NoCertificatesAreRead(front);
    } else {
      ClearOfLine(front);
      var items := GapGrows(front + [NEWLINE], certificates, tail);
      ItemsAreFound(items, tail);
      assert front + Trailer(certificates, tail) == (front + [NEWLINE]) + Layout(certificates, tail);
    }
  }

  lemma PartsAreRead(header: seq<Byte>, image: seq<Byte>, timestamp: seq<Byte>, block: seq<Byte>)
    requires |header| == HEADER_SIZE && |timestamp| == SIZE_DATE_SIGN && block != []
    requires |header + (image + (timestamp + block))| < OFFSET_LIMIT
    ensures var data := header + (image + (timestamp + block));
      && HEADER_SIZE + |image| + SIZE_DATE_SIGN <= |data|
      && Content(data, |image|) == image && TimestampAt(data, |image|) == timestamp
      && data[HEADER_SIZE + |image|..] == timestamp + block
      && SignatureOffset(|image|) == HEADER_SIZE + |image| + SIZE_DATE_SIGN < |data|
      && data[SignatureOffset(|image|)..] == block
  {
    var data := header + (image + (timestamp + block));
    assert data[HEADER_SIZE..HEADER_SIZE + |image|] == image;
    assert data[HEADER_SIZE + |image|..] == timestamp + block;
    assert data[HEADER_SIZE + |image| + SIZE_DATE_SIGN..] == block;
    assert data[HEADER_SIZE + |image|..HEADER_SIZE + |image| + SIZE_DATE_SIGN] == timestamp;
  }

  /** From a bundle, the reader recovers exactly the parts it was made of. */
  lemma BundleRoundTrip(size: bv64, image: seq<Byte>, timestamp: seq<Byte>, signature: seq<Byte>,
                        certificates: seq<Item>, tail: seq<Byte>)
    requires IsBundle(size, image, timestamp, signature, certificates, tail)
    ensures var data := Bundle(size, image, timestamp, signature, certificates, tail);
      && OpenError(data).None? && SizeOf(data) == |image|
      && HEADER_SIZE + |image| + SIZE_DATE_SIGN <= |data|
      && Content(data, |image|) == image
      && TimestampAt(data, |image|) == timestamp
      && SignatureAt(data, |image|) == Some(signature)
      && CertificatesIn(data[HEADER_SIZE + |image|..]) == Blocks(certificates)
  {
    hide HeaderOf, HeaderBytes, CrcHolds, MarkerFree, WellFormed, SignatureIn, CertificatesIn, Trailer, Blocks,
      OpenError, SizeOf, Content, TimestampAt, SignatureOffset;
    var data := Bundle(size, image, timestamp, signature, certificates, tail);
    var trailer := Trailer(certificates, tail);
    BundleHeaderIsRead(size, image + (timestamp + (signature + trailer)));
    PartsAreRead(HeaderBytes(size, 1), image, timestamp, signature + trailer);
    EndIsMarkerFree(timestamp, signature);
    SignatureIsRead(signature, certificates, tail);
    CertificatesAreRead(timestamp + signature, certificates, tail);
    assert (timestamp + signature) + trailer == timestamp + (signature + trailer);
  }

  lemma VerifiedExactly(data: seq<Byte>, image: seq<Byte>, timestamp: seq<Byte>, signature: seq<Byte>,
                        certificates: seq<seq<Byte>>, trust: Trust)
    requires HEADER_SIZE + |image| + SIZE_DATE_SIGN <= |data|
    requires SizeOf(data) == |image| && CrcHolds(data[..HEADER_SIZE])
    requires HeaderOf(data).IsValid() <==> image != []
    requires Content(data, |image|) == image && TimestampAt(data, |image|) == timestamp
    requires SignatureAt(data, |image|) == Some(signature)
    requires CertificatesIn(data[HEADER_SIZE + |image|..]) == certificates
    ensures var signers := Readable(certificates, trust.parses);
      HEADER_SIZE < |data| && (IsVerified(data, trust) <==>
        && image != [] && signers != [] && trust.chain(signers)
        && Timely(trust, timestamp, signers[0]) && trust.signed(signers[0], image, timestamp, signature))
  {
    hide HeaderOf, SizeOf, Header.IsValid, CrcHolds, Content, TimestampAt, SignatureAt, CertificatesIn, Readable;
  }

  /** Verification of a bundle is a statement about its parts alone. */
  lemma BundleVerifiedExactly(size: bv64, image: seq<Byte>, timestamp: seq<Byte>, signature: seq<Byte>,
                              certificates: seq<Item>, tail: seq<Byte>, trust: Trust)
    requires IsBundle(size, image, timestamp, signature, certificates, tail)
    ensures var data := Bundle(size, image, timestamp, signature, certificates, tail);
      var signers := Readable(Blocks(certificates), trust.parses);
      HEADER_SIZE < |data| && (IsVerified(data, trust) <==>
        && image != [] && signers != [] && trust.chain(signers)
        && Timely(trust, timestamp, signers[0]) && trust.signed(signers[0], image, timestamp, signature))
  {
    BundleRoundTrip(size, image, timestamp, signature, certificates, tail);
    hide IsBundle, Bundle, HeaderOf, CrcHolds, Trailer, Blocks, OpenError, SizeOf, Content, TimestampAt, SignatureAt,
      Readable, IsVerified, CertificatesIn, HeaderBytes, Header.IsValid;
    var data := Bundle(size, image, timestamp, signature, certificates, tail);
    BundleHeaderHolds(size, image, timestamp, signature, certificates, tail);
    VerifiedExactly(data, image, timestamp, signature, Blocks(certificates), trust);
  }

  lemma BundleHeaderHolds(size: bv64, image: seq<Byte>, timestamp: seq<Byte>, signature: seq<Byte>,
                          certificates: seq<Item>, tail: seq<Byte>)
    requires IsBundle(size, image, timestamp, signature, certificates, tail)
    ensures var data := Bundle(size, image, timestamp, signature, certificates, tail);
      HEADER_SIZE < |data| && CrcHolds(data[..HEADER_SIZE]) && (HeaderOf(data).IsValid() <==> image != [])
  {
    hide HeaderOf, HeaderBytes, CrcHolds, Trailer, OpenError, SizeOf, MarkerFree, WellFormed;
    BundleHeaderIsRead(size, image + (timestamp + (signature + Trailer(certificates, tail))));
  }

  /** Which bundles are verified, in terms of what stands in them and of the answers of the libraries: the
      signers are the blocks that parse, in their order; the chain holds; the time before any 'Z' and
      padding is a time at which the first signer was valid; and that signer signed image and timestamp. */
  lemma BundleAcceptedExactly(size: bv64, image: seq<Byte>, time: seq<Byte>, zone: bool, padding: seq<Byte>,
                              signature: seq<Byte>, certificates: seq<Item>, tail: seq<Byte>, trust: Trust,
                              signers: seq<seq<Byte>>, idx: seq<nat>)
    requires IsWrittenTime(time, zone, padding)
    requires IsBundle(size, image, Stamp(time, zone, padding), signature, certificates, tail)
    requires Keeps(idx, Blocks(certificates), trust.parses, signers)
    ensures var stamp := Stamp(time, zone, padding);
      var data := Bundle(size, image, stamp, signature, certificates, tail);
      |data| > 16 && (IsVerified(data, trust) <==>
        && image != [] && signers != [] && trust.chain(signers)
        && trust.date(time).Some?
        && trust.notBefore(signers[0]) <= trust.date(time).value <= trust.notAfter(signers[0])
        && trust.signed(signers[0], image, stamp, signature))
  {
    hide IsBundle, Bundle, IsVerified, Keeps, Readable, Stamp, TimeText, IsWrittenTime, Blocks;
    KeptIsReadable(idx, Blocks(certificates), trust.parses, signers);
    TimeIsRecovered(time, zone, padding);
    BundleVerifiedExactly(size, image, Stamp(time, zone, padding), signature, certificates, tail, trust);
  }
}
