/**
 The application bundle as it lies in a file: header, image, timestamp of 26 bytes, signature,
 certificates (applicationImage.cpp and the verification in updateApplication.cpp).
 */
module ApplicationBundle {
  import opened Bytes
  import opened Results
  import opened Streams
  import opened BundleHeader
  import opened PemScan
  import Crc32

  const SIZE_DATE_SIGN := 26
  const CHUNK_SIZE := 4096

  // ----- What the file says -----

  function HeaderOf(data: seq<Byte>): Header
    requires |data| >= HEADER_SIZE
  {
    Parsed(data[..HEADER_SIZE])
  }

  function SizeOf(data: seq<Byte>): (r: nat)
    requires |data| >= HEADER_SIZE
    ensures r < WORD
  {
    HeaderOf(data).Size()
  }

  /** Why the constructor of applicationImage refuses a file. */
  function OpenError(data: seq<Byte>): Option<Error> {
    if |data| <= HEADER_SIZE then Some(ImageTooSmall)
    else if HeaderOf(data).version != 1 then Some(WrongHeaderVersion)
    else if !CrcHolds(data[..HEADER_SIZE]) then Some(WrongHeaderChecksum)
    else None
  }

  /** The constructor asks for the length, then for the version, then for the checksum. */
  lemma OpenErrorIs(data: seq<Byte>)
    ensures |data| <= 16 ==> OpenError(data) == Some(ImageTooSmall)
    ensures |data| > 16 ==>
      var h := Parsed(data[..16]);
      OpenError(data) == if h.version != 1 then Some(WrongHeaderVersion)
                         else if h.crc != Crc32.Crc(data[..12]) then Some(WrongHeaderChecksum)
                         else None
  {
    hide Big64, Big32, Crc32.Crc;
    assert |data| > 16 ==> data[..16][..12] == data[..12];
  }

  /** The stream holds the image; an empty one is read even from a failed stream. */
  predicate Reaches(failed: bool, data: seq<Byte>, size: nat) {
    size == 0 || (!failed && HEADER_SIZE + size <= |data|)
  }

  /** The bytes behind the header. */
  function Content(data: seq<Byte>, size: nat): seq<Byte>
    requires Reaches(false, data, size)
  {
    if size == 0 then [] else data[HEADER_SIZE..HEADER_SIZE + size]
  }

  function TimestampAt(data: seq<Byte>, size: nat): seq<Byte>
    requires HEADER_SIZE + size + SIZE_DATE_SIGN <= |data|
  {
    data[HEADER_SIZE + size..HEADER_SIZE + size + SIZE_DATE_SIGN]
  }

  /** The places of image and timestamp, in numbers. */
  lemma PlacesAre(data: seq<Byte>, size: nat)
    requires 16 + size + 26 <= |data|
    ensures Content(data, size) == data[16..16 + size]
    ensures TimestampAt(data, size) == data[16 + size..16 + size + 26]
  {
  }

  const LETTER_Z: Byte := 0x5A

  /** Digits, '-', ':', 'T', 'Z' and '+'. */
  predicate IsTimeByte(b: Byte) {
    0x30 <= b <= 0x39 || b == 0x2D || b == 0x3A || b == 0x54 || b == LETTER_Z || b == 0x2B
  }

  function TimePrefix(stamp: seq<Byte>): seq<Byte> {
    if stamp == [] || !IsTimeByte(stamp[0]) then [] else [stamp[0]] + TimePrefix(stamp[1..])
  }

  /** The text that getTimeOfSigning parses: the leading bytes of a time, without a 'Z' at the end. */
  function TimeText(stamp: seq<Byte>): seq<Byte> {
    var front := TimePrefix(stamp);
    if front != [] && front[|front| - 1] == LETTER_Z then front[..|front| - 1] else front
  }

  lemma {:induction false} TimePrefixIs(stamp: seq<Byte>, n: nat)
    requires n <= |stamp| && (forall i :: 0 <= i < n ==> IsTimeByte(stamp[i]))
    requires n == |stamp| || !IsTimeByte(stamp[n])
    ensures TimePrefix(stamp) == stamp[..n]
  {
    if n > 0 {
      TimePrefixIs(stamp[1..], n - 1);
      assert stamp[..n] == [stamp[0]] + stamp[1..][..n - 1];
    }
  }

  function Stamp(time: seq<Byte>, zone: bool, padding: seq<Byte>): seq<Byte> {
    time + (if zone then [0x5A] else []) + padding
  }

  /** Digits, '-', ':', 'T', 'Z' and '+', by their codes; what follows begins with another byte. */
  ghost predicate IsWrittenTime(time: seq<Byte>, zone: bool, padding: seq<Byte>) {
    var codes: set<Byte> := {0x30, 0x31, 0x32, 0x33, 0x34, 0x35, 0x36, 0x37, 0x38, 0x39, 0x2D, 0x3A, 0x54, 0x5A, 0x2B};
    && (forall b :: b in time ==> b in codes)
    && (zone || time == [] || time[|time| - 1] != 0x5A)
    && (padding == [] || padding[0] !in codes)
  }

  /** A time that is written with or without the 'Z', and filled up with anything that cannot belong
      to a time, is the text that is parsed. */
  lemma TimeIsRecovered(time: seq<Byte>, zone: bool, padding: seq<Byte>)
    requires IsWrittenTime(time, zone, padding)
    ensures TimeText(Stamp(time, zone, padding)) == time
  {
    var written := time + if zone then [LETTER_Z] else [];
    forall i | 0 <= i < |written| ensures IsTimeByte(written[i]) {
      assert i < |time| ==> written[i] in time;
    }
    TimePrefixIs(written + padding, |written|);
    assert (written + padding)[..|written|] == written;
    assert zone ==> written[..|written| - 1] == time;
  }

  /** Every timestamp is of this kind. */
  lemma EveryStampIsWritten(stamp: seq<Byte>) returns (time: seq<Byte>, zone: bool, padding: seq<Byte>)
    ensures IsWrittenTime(time, zone, padding) && stamp == Stamp(time, zone, padding)
  {
    var n := 0;
    while n < |stamp| && IsTimeByte(stamp[n])
      invariant n <= |stamp| && forall i :: 0 <= i < n ==> IsTimeByte(stamp[i])
    {
      n := n + 1;
    }
    zone := n > 0 && stamp[n - 1] == LETTER_Z;
    time, padding := stamp[..if zone then n - 1 else n], stamp[n..];
    assert zone ==> stamp[..n] == stamp[..n - 1] + [stamp[n - 1]];
  }

  /** The time of signing; whether a text is a time, and which, is for strptime and mktime to say. */
  function ParsedTime(date: seq<Byte> -> Option<int>, stamp: seq<Byte>): Result<int> {
    match date(TimeText(stamp))
    case Some(time) => Success(time)
    case None => Failure(ReadPointOfTime)
  }

  /** A certificate marker at the beginning of a line ends the signature. */
  function CertificateLine(): (r: seq<Byte>)
    ensures |r| == 28 && r[0] == NEWLINE
  {
    [NEWLINE] + PemBegin()
  }

  function SignatureIn(block: seq<Byte>): (r: seq<Byte>)
    ensures r <= block
  {
    var line := Find(block, CertificateLine(), 0);
    if line.Some? then block[..line.value] else block
  }

  /** The first position behind image and timestamp, in 64-bit arithmetic. */
  function SignatureOffset(size: nat): int {
    (HEADER_SIZE + size + SIZE_DATE_SIGN) % WORD
  }

  function SignatureAt(data: seq<Byte>, size: nat): Option<seq<Byte>> {
    var offset := SignatureOffset(size);
    if |data| <= offset then None
    else
      var signature := SignatureIn(data[offset..]);
      if signature == [] then None else Some(signature)
  }

  /** The signature runs from behind the timestamp (in 64 bits) to the first line feed that a certificate
      marker follows, or to the end; there is none where that is nothing. */
  lemma SignatureExactly(data: seq<Byte>, size: nat)
    ensures var at := (16 + size + 26) % 0x1_0000_0000_0000_0000; var line := [0x0A] + PemBegin();
      if |data| <= at || Occurs(data[at..], line, 0) then SignatureAt(data, size) == None
      else
        var s := SignatureAt(data, size);
        && s.Some? && 0 < |s.value| <= |data| - at && s.value == data[at..at + |s.value|]
        && (at + |s.value| == |data| || Occurs(data[at..], line, |s.value|))
        && forall k :: 0 <= k < |s.value| ==> !Occurs(data[at..], line, k)
  {
    hide Find, PemBegin, Occurs;
    var at := (16 + size + 26) % 0x1_0000_0000_0000_0000;
    if at < |data| {
      FirstLine(data[at..]);
    }
  }

  lemma FirstLine(block: seq<Byte>)
    requires block != []
    ensures var s := SignatureIn(block); var line := [0x0A] + PemBegin();
      && (s == [] <==> Occurs(block, line, 0))
      && (|s| == |block| || Occurs(block, line, |s|))
      && forall k :: 0 <= k < |s| ==> !Occurs(block, line, k)
  {
    hide Find, PemBegin, Occurs;
    assert CertificateLine() == [0x0A] + PemBegin();
    var line := Find(block, CertificateLine(), 0);
  }

  function From(data: seq<Byte>, pos: nat): seq<Byte> {
    if pos <= |data| then data[pos..] else []
  }

  /** The texts of the certificate blocks behind the image. */
  function CertificatesIn(text: seq<Byte>): seq<seq<Byte>> {
    Texts(text, Scan(text, 0))
  }

  // ----- read_img over the whole range of sizes -----

  /** The end of image and timestamp, as a number without a width. */
  function TotalOf(size: nat): (r: nat)
    ensures r >= HEADER_SIZE + SIZE_DATE_SIGN
  {
    HEADER_SIZE + size + SIZE_DATE_SIGN
  }

  /** The loop bound: a 64-bit unsigned difference, read as a signed position. */
  function BoundOf(size: nat, chunk: nat): int {
    ToOffset(TotalOf(size) - chunk)
  }

  /** What is left behind a position, in 64 and then in 32 bits. */
  function ResidualAt(size: nat, position: int): (r: nat)
    ensures r < 0x1_0000_0000
  {
    (TotalOf(size) - position) % WORD % 0x1_0000_0000
  }

  /** The bound does not mean the position it stands for. */
  predicate Wraps(size: nat, chunk: nat) {
    TotalOf(size) - chunk >= OFFSET_LIMIT
  }

  /** How many bytes a successful call delivers. */
  function Delivers(size: nat, chunk: nat): nat {
    if Wraps(size, chunk) then (size + SIZE_DATE_SIGN) % WORD % 0x1_0000_0000 else size + SIZE_DATE_SIGN
  }

  /** The loop is skipped, and the single read asks for more than the buffer. */
  predicate Overasks(size: nat, chunk: nat) {
    && OFFSET_LIMIT <= TotalOf(size) - chunk <= WORD + HEADER_SIZE
    && (size + SIZE_DATE_SIGN) % WORD % 0x1_0000_0000 > chunk
  }

  function ReadImgOutcome(failed: bool, data: seq<Byte>, size: nat, chunk: nat): Result<()> {
    if failed then Failure(ImageRead)
    else if Overasks(size, chunk) && HEADER_SIZE + chunk < |data| then Failure(BufferOverrun)
    else if HEADER_SIZE + Delivers(size, chunk) <= |data| then Success(())
    else Failure(ImageRead)
  }

  /** A call delivers as many bytes as image and timestamp have exactly when the bound does not wrap. */
  lemma DeliversExactly(size: nat, chunk: nat)
    requires size < WORD && 0 < chunk < 0x1_0000_0000
    ensures Delivers(size, chunk) == size + SIZE_DATE_SIGN <==> !Wraps(size, chunk)
  {
  }

  /** The outcomes in numbers: below 2^62 the call succeeds exactly when the file holds image and
      timestamp, and above, where the end minus the buffer does not fit a signed number, it reads once. */
  lemma OutcomesAre(failed: bool, data: seq<Byte>, size: nat, chunk: nat)
    requires size < 0x1_0000_0000_0000_0000 && 0 < chunk < 0x1_0000_0000
    ensures size < 0x4000_0000_0000_0000 ==>
      ReadImgOutcome(failed, data, size, chunk) ==
        if !failed && 16 + size + 26 <= |data| then Success(()) else Failure(ImageRead)
    ensures 0x8000_0000_0000_0000 <= 16 + size + 26 - chunk && size + 26 < 0x1_0000_0000_0000_0000 ==>
      var asked := (size + 26) % 0x1_0000_0000;
      ReadImgOutcome(failed, data, size, chunk) ==
        if failed then Failure(ImageRead)
        else if asked > chunk && 16 + chunk < |data| then Failure(BufferOverrun)
        else if 16 + asked <= |data| then Success(())
        else Failure(ImageRead)
  {
  }

  /** Two sizes at which it wraps for a buffer of 8192 bytes: one overruns the buffer in every file
      that is longer than it, one reports success after 26 bytes. */
  lemma WrappedSizes(data: seq<Byte>)
    requires |data| > HEADER_SIZE + 8192
    ensures ReadImgOutcome(false, data, 0x8000_0000_0010_0000, 8192) == Failure(BufferOverrun)
    ensures ReadImgOutcome(false, data, 0x8000_0001_0000_0000, 8192) == Success(())
    ensures Delivers(0x8000_0001_0000_0000, 8192) == SIZE_DATE_SIGN
  {
  }

  /** While the loop runs, its bound is one chunk before the end of what is delivered. */
  lemma BoundExactly(size: nat, chunk: nat)
    requires size < WORD && 0 < chunk < 0x1_0000_0000
    ensures var bound := BoundOf(size, chunk);
      && (bound > HEADER_SIZE ==> bound + chunk == HEADER_SIZE + Delivers(size, chunk) && !Overasks(size, chunk))
      && (bound > HEADER_SIZE ==> TotalOf(size) == bound + chunk + if Wraps(size, chunk) then WORD else 0)
      && (bound <= HEADER_SIZE && !Wraps(size, chunk) ==> size + SIZE_DATE_SIGN <= chunk)
      && (bound <= HEADER_SIZE && Wraps(size, chunk) ==> TotalOf(size) - chunk <= WORD + HEADER_SIZE)
  {
  }

  /** What the read asks for when the loop was skipped. */
  lemma OnlyRead(size: nat, chunk: nat)
    requires size < WORD && 0 < chunk < 0x1_0000_0000 && BoundOf(size, chunk) <= HEADER_SIZE
    ensures ResidualAt(size, HEADER_SIZE) == Delivers(size, chunk)
    ensures ResidualAt(size, HEADER_SIZE) > chunk <==> Overasks(size, chunk)
  {
    BoundExactly(size, chunk);
    hide BoundOf;
    assert TotalOf(size) - HEADER_SIZE == size + SIZE_DATE_SIGN;
  }

  /** What the read behind the loop asks for. */
  lemma LastRead(size: nat, chunk: nat, position: int)
    requires size < WORD && 0 < chunk < 0x1_0000_0000
    requires var bound := BoundOf(size, chunk); bound <= position && HEADER_SIZE < position < bound + chunk
    requires BoundOf(size, chunk) > HEADER_SIZE
    ensures ResidualAt(size, position) <= chunk && !Overasks(size, chunk)
    ensures position + ResidualAt(size, position) == HEADER_SIZE + Delivers(size, chunk)
  {
    BoundExactly(size, chunk);
    hide BoundOf, Delivers, Overasks;
    RestOfWord(BoundOf(size, chunk) + chunk - position, TotalOf(size) - position);
  }

  lemma RestOfWord(rest: nat, difference: int)
    requires rest < 0x1_0000_0000 && (difference == rest || difference == rest + WORD)
    ensures difference % WORD % 0x1_0000_0000 == rest
  {
  }

  lemma ImageAndTimestamp(data: seq<Byte>, size: nat)
    requires HEADER_SIZE + (size + SIZE_DATE_SIGN) <= |data|
    ensures TotalOf(size) <= |data|
    ensures data[HEADER_SIZE..HEADER_SIZE + (size + SIZE_DATE_SIGN)] == Content(data, size) + TimestampAt(data, size)
  {
  }

  // ----- The reader -----

  /** What becomes of a new file: whether it can be created, how much it takes, and whether it
      reaches the medium. */
  datatype Storage = Storage(opens: bool, room: nat, syncs: bool, closes: bool) {
    predicate Takes(size: nat) {
      opens && size <= room && syncs && closes
    }
  }

  /** The loop of getTimeOfSigning over its buffer. */
  method TrimTime(buffer: array<Byte>) returns (time: seq<Byte>)
    ensures time == TimeText(buffer[..])
  {
    var len := 0;
    while len < buffer.Length
      invariant 0 <= len <= buffer.Length
      invariant forall i :: 0 <= i < len ==> IsTimeByte(buffer[i])
    {
      if !IsTimeByte(buffer[len]) {
        break;
      }
      len := len + 1;
    }
    TimePrefixIs(buffer[..], len);
    assert buffer[..][..len] == buffer[..len];
    time := buffer[..len];
    if time != [] && time[|time| - 1] == LETTER_Z {
      time := time[..|time| - 1];
    }
  }

  class ApplicationImage {
    const stream: Stream
    const size: nat

    ghost predicate Valid()
      reads this
    {
      && HEADER_SIZE < |stream.data| < OFFSET_LIMIT
      && size == SizeOf(stream.data)
    }

    constructor Wrap(stream: Stream, size: nat)
      requires HEADER_SIZE < |stream.data| < OFFSET_LIMIT && size == SizeOf(stream.data)
      ensures Valid() && this.stream == stream && this.size == size
    {
      this.stream := stream;
      this.size := size;
    }

    /** read_img: image and timestamp in chunks. For a short bundle the bound wraps to a negative
        position, which ends the loop at once as it should; for a size near 2^63 and above it wraps too. */
    method ReadImg(chunk: nat) returns (r: Result<()>, delivered: seq<Byte>)
      requires Valid() && 0 < chunk < 0x1_0000_0000
      modifies stream
      ensures r == ReadImgOutcome(old(stream.failed), stream.data, size, chunk)
      ensures r.Success? ==>
        stream.Good() && delivered == stream.data[HEADER_SIZE..HEADER_SIZE + Delivers(size, chunk)]
      ensures r.Success? && !Wraps(size, chunk) ==>
        && TotalOf(size) <= |stream.data|
        && delivered == Content(stream.data, size) + TimestampAt(stream.data, size)
      ensures delivered <= stream.data[HEADER_SIZE..]
    {
      hide SizeOf, BoundOf, ResidualAt, Overasks, Delivers, TotalOf;
      var buffer := new Byte[chunk];
      delivered := [];
      stream.Seek(HEADER_SIZE);
      var bound := BoundOf(size, chunk);
      BoundExactly(size, chunk);
      var at := stream.Tell();
      while at < bound
        invariant stream.failed == old(stream.failed) && !stream.eof
        invariant at == if stream.failed then -1 else stream.pos
        invariant stream.failed ==> delivered == []
        invariant !stream.failed ==>
            && HEADER_SIZE <= at <= |stream.data|
            && (at == HEADER_SIZE || (HEADER_SIZE < bound && at < bound + chunk))
            && delivered == stream.data[HEADER_SIZE..at]
        decreases |stream.data| - at
      {
        stream.Read(buffer, chunk);
        if !stream.Good() {
          return Failure(ImageRead), delivered;
        }
        delivered := delivered + buffer[..chunk];
        at := stream.Tell();
      }
      r, delivered := ReadRest(buffer, bound, delivered);
      if r.Success? && !Wraps(size, chunk) {
        DeliversExactly(size, chunk);
        ImageAndTimestamp(stream.data, size);
      }
    }

    /** The read behind the loop. */
    method ReadRest(buffer: array<Byte>, bound: int, front: seq<Byte>) returns (r: Result<()>, delivered: seq<Byte>)
      requires Valid() && 0 < buffer.Length < 0x1_0000_0000 && bound == BoundOf(size, buffer.Length)
      requires !stream.eof
      requires !stream.failed ==>
        && HEADER_SIZE <= stream.pos <= |stream.data| && bound <= stream.pos
        && (stream.pos == HEADER_SIZE || (HEADER_SIZE < bound && stream.pos < bound + buffer.Length))
        && front == stream.data[HEADER_SIZE..stream.pos]
      requires stream.failed ==> front == []
      modifies stream, buffer
      ensures r == ReadImgOutcome(old(stream.failed), stream.data, size, buffer.Length)
      ensures r.Success? ==>
        stream.Good() && delivered == stream.data[HEADER_SIZE..HEADER_SIZE + Delivers(size, buffer.Length)]
      ensures delivered <= stream.data[HEADER_SIZE..]
    {
      hide SizeOf, BoundOf, Overasks, ResidualAt;
      delivered := front;
      var position := stream.Tell();
      var residual := ResidualAt(size, position);
      if stream.Good() {
        if position == HEADER_SIZE {
          OnlyRead(size, buffer.Length);
        } else {
          LastRead(size, buffer.Length, position);
        }
        if Available(stream.data, stream.pos, residual) > buffer.Length {
          return Failure(BufferOverrun), delivered;
        }
      }
      stream.Read(buffer, residual);
      if !stream.Good() {
        return Failure(ImageRead), delivered;
      }
      delivered := delivered + buffer[..residual];
      assert delivered == stream.data[HEADER_SIZE..HEADER_SIZE + Delivers(size, buffer.Length)];
      return Success(()), delivered;
    }

    /** read_img_content_only: the image in chunks, for the verifier. */
    method ReadImgContentOnly(chunk: nat, contentSize: nat) returns (r: Result<()>, delivered: seq<Byte>)
      requires Valid() && 0 < chunk < 0x1_0000_0000 && contentSize < WORD
      modifies stream
      ensures r.Success? <==> Reaches(old(stream.failed), stream.data, contentSize)
      ensures r.Success? ==> delivered == Content(stream.data, contentSize)
      ensures delivered <= stream.data[HEADER_SIZE..]
    {
      hide SizeOf;
      var buffer := new Byte[chunk];
      delivered := [];
      stream.Seek(HEADER_SIZE);
      var bytesRead := 0;
      while bytesRead < contentSize
        invariant bytesRead == |delivered| <= contentSize
        invariant stream.failed == old(stream.failed) && !stream.eof
        invariant stream.failed ==> bytesRead == 0
        invariant !stream.failed ==>
            && stream.pos == HEADER_SIZE + bytesRead <= |stream.data|
            && delivered == stream.data[HEADER_SIZE..stream.pos]
      {
        var toRead := if chunk <= contentSize - bytesRead then chunk else contentSize - bytesRead;
        stream.Read(buffer, toRead);
        var actuallyRead := stream.gcount;
        if actuallyRead == 0 {
          return Failure(ImageRead), delivered;
        }
        delivered := delivered + buffer[..actuallyRead];
        bytesRead := bytesRead + actuallyRead;
        if actuallyRead < toRead {
          if bytesRead < contentSize {
            return Failure(ImageRead), delivered;
          }
          break;
        }
      }
      return Success(()), delivered;
    }

    /** copyImage: the image in chunks, into a new file; on any error the file is removed again. */
    method CopyImage(chunk: nat, storage: Storage) returns (r: Result<()>, file: Option<seq<Byte>>)
      requires Valid() && 0 < chunk < 0x1_0000_0000
      modifies stream
      ensures r.Success? <==> Reaches(old(stream.failed), stream.data, size) && storage.Takes(size)
      ensures r.Success? <==>
        && storage.opens && size <= storage.room && storage.syncs && storage.closes
        && (size == 0 || (!old(stream.failed) && 16 + size <= |stream.data|))
      ensures r.Success? ==> file == Some(Content(stream.data, size))
      ensures r.Failure? ==> file == None
    {
      hide SizeOf;
      if !storage.opens {
        return Failure(ImageWrite), None;
      }
      var buffer := new Byte[chunk];
      var written := [];
      stream.Seek(HEADER_SIZE);
      var cursor := 0;
      while (cursor + chunk) % WORD <= size
        invariant cursor == |written| <= size && cursor <= storage.room
        invariant stream.failed == old(stream.failed) && !stream.eof
        invariant stream.failed ==> cursor == 0
        invariant !stream.failed ==>
            && stream.pos == HEADER_SIZE + cursor <= |stream.data|
            && written == stream.data[HEADER_SIZE..stream.pos]
        decreases size - cursor
      {
        stream.Read(buffer, chunk);
        if !stream.Good() {
          return Failure(ImageWrite), None;
        }
        if cursor + chunk > storage.room {
          return Failure(ImageWrite), None;
        }
        written := written + buffer[..chunk];
        cursor := cursor + chunk;
      }
      r, file := CopyRest(buffer, written, storage);
    }

    /** The read and the write behind the loop, and the end of the file. */
    method CopyRest(buffer: array<Byte>, front: seq<Byte>, storage: Storage)
      returns (r: Result<()>, file: Option<seq<Byte>>)
      requires Valid() && !stream.eof
      requires |front| <= size < |front| + buffer.Length && |front| <= storage.room && storage.opens
      requires stream.failed ==> front == []
      requires !stream.failed ==>
        && stream.pos == HEADER_SIZE + |front| <= |stream.data|
        && front == stream.data[HEADER_SIZE..stream.pos]
      modifies stream, buffer
      ensures r.Success? <==> Reaches(old(stream.failed), stream.data, size) && storage.Takes(size)
      ensures r.Success? ==> file == Some(Content(stream.data, size))
      ensures r.Failure? ==> file == None
    {
      hide SizeOf;
      var written := front;
      var remaining := size - |front|;
      if remaining > 0 {
        stream.Read(buffer, remaining);
        if !stream.Good() || size > storage.room {
          return Failure(ImageWrite), None;
        }
        assert front + buffer[..remaining] == stream.data[HEADER_SIZE..stream.pos];
        written := front + buffer[..remaining];
      }
      if !storage.syncs || !storage.closes {
        return Failure(ImageWrite), None;
      }
      return Success(()), Some(written);
    }

    /** getTimeOfSigning; unlike getTimestamp it does not reset the stream. */
    method GetTimeOfSigning(date: seq<Byte> -> Option<int>) returns (r: Result<int>)
      requires Valid()
      modifies stream
      ensures var at := ToOffset(HEADER_SIZE + size);
        r == if !old(stream.failed) && 0 <= at && at + SIZE_DATE_SIGN <= |stream.data|
             then ParsedTime(date, stream.data[at..at + SIZE_DATE_SIGN]) else Failure(ImageRead)
      ensures HEADER_SIZE + size + SIZE_DATE_SIGN <= |stream.data| ==>
          r == if old(stream.failed) then Failure(ImageRead) else ParsedTime(date, TimestampAt(stream.data, size))
    {
      hide SizeOf, TimeText;
      ghost var at := ToOffset(HEADER_SIZE + size);
      stream.Seek(ToOffset(HEADER_SIZE + size));
      var buffer := new Byte[SIZE_DATE_SIGN];
      stream.Read(buffer, SIZE_DATE_SIGN);
      if !stream.Good() {
        return Failure(ImageRead);
      }
      assert buffer[..] == stream.data[at..at + SIZE_DATE_SIGN] by {
        assert buffer[..] == buffer[..SIZE_DATE_SIGN];
      }
      var time := TrimTime(buffer);
      var point := date(time);
      if point.None? {
        return Failure(ReadPointOfTime);
      }
      return Success(point.value);
    }

    /** getHeader. */
    method GetHeader() returns (header: seq<Byte>)
      requires Valid()
      modifies stream
      ensures header == stream.data[..HEADER_SIZE] && stream.Good()
    {
      hide SizeOf;
      var buffer := new Byte[HEADER_SIZE];
      stream.Clear();
      stream.Seek(0);
      stream.Read(buffer, HEADER_SIZE);
      return buffer[..HEADER_SIZE];
    }

    /** getTimestamp; the position is a 64-bit sum read as a signed offset. */
    method GetTimestamp() returns (r: Result<seq<Byte>>)
      requires Valid()
      modifies stream
      ensures var at := ToOffset(HEADER_SIZE + size);
        && (r.Success? <==> 0 <= at && at + SIZE_DATE_SIGN <= |stream.data|)
        && (r.Success? ==> r.value == stream.data[at..at + SIZE_DATE_SIGN] && stream.Good())
      ensures HEADER_SIZE + size + SIZE_DATE_SIGN <= |stream.data| ==>
          r == Success(TimestampAt(stream.data, size))
    {
      hide SizeOf;
      stream.Clear();
      stream.Seek(ToOffset(HEADER_SIZE + size));
      if stream.failed {
        return Failure(ImageRead);
      }
      var buffer := new Byte[SIZE_DATE_SIGN];
      stream.Read(buffer, SIZE_DATE_SIGN);
      if !stream.Good() {
        return Failure(ImageRead);
      }
      assert stream.gcount == SIZE_DATE_SIGN;
      return Success(buffer[..SIZE_DATE_SIGN]);
    }

    /** getSignature. */
    method GetSignature() returns (r: Result<seq<Byte>>)
      requires Valid()
      modifies stream
      ensures stream.Good()
      ensures var s := SignatureAt(stream.data, size);
        r == if s.Some? then Success(s.value) else Failure(ImageRead)
    {
      hide SizeOf, Find, First, Absent, CertificateLine, Occurs;
      var signatureOffset := (HEADER_SIZE + size + SIZE_DATE_SIGN) % WORD;
      stream.Clear();
      stream.SeekEnd();
      var fileSize := stream.Tell();
      if fileSize <= signatureOffset {
        return Failure(ImageRead);
      }
      var blockSize := fileSize - signatureOffset;
      stream.Clear();
      stream.Seek(ToOffset(signatureOffset));
      var block := new Byte[blockSize];
      stream.Read(block, blockSize);
      assert block[..] == stream.data[signatureOffset..];
      var certStart := Find(block[..], CertificateLine(), 0);
      var signatureSize := if certStart.Some? then certStart.value else blockSize;
      if signatureSize == 0 {
        return Failure(ImageRead);
      }
      var signature := block[..signatureSize];
      assert signature == SignatureIn(stream.data[signatureOffset..]);
      return Success(signature);
    }
  }
}
