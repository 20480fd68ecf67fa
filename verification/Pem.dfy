/** The scan for PEM certificate blocks behind the image (updateApplication.cpp). */
module PemScan {
  import opened Bytes
  import opened Results

  const NEWLINE: Byte := 0x0A
  const DASH: Byte := 0x2D

  /** -----BEGIN CERTIFICATE----- */
  function PemBegin(): (m: seq<Byte>)
    ensures |m| == 27 && m[0] == DASH && NEWLINE !in m
  {
    [0x2D, 0x2D, 0x2D, 0x2D, 0x2D, 0x42, 0x45, 0x47, 0x49, 0x4E, 0x20,
     0x43, 0x45, 0x52, 0x54, 0x49, 0x46, 0x49, 0x43, 0x41, 0x54, 0x45, 0x2D, 0x2D, 0x2D, 0x2D, 0x2D]
  }

  /** -----END CERTIFICATE----- */
  function PemEnd(): (m: seq<Byte>)
    ensures |m| == 25 && m[0] == DASH && NEWLINE !in m
  {
    [0x2D, 0x2D, 0x2D, 0x2D, 0x2D, 0x45, 0x4E, 0x44, 0x20,
     0x43, 0x45, 0x52, 0x54, 0x49, 0x46, 0x49, 0x43, 0x41, 0x54, 0x45, 0x2D, 0x2D, 0x2D, 0x2D, 0x2D]
  }

  ghost predicate Spells(bytes: seq<Byte>, text: string) {
    |bytes| == |text| && forall i :: 0 <= i < |text| ==> bytes[i] as int == text[i] as int
  }

  lemma Words()
    ensures Spells([0x2D, 0x2D, 0x2D, 0x2D, 0x2D], "-----")
    ensures Spells([0x42, 0x45, 0x47, 0x49, 0x4E], "BEGIN")
    ensures Spells([0x45, 0x4E, 0x44], "END")
    ensures Spells([0x20, 0x43, 0x45, 0x52, 0x54], " CERT")
    ensures Spells([0x49, 0x46, 0x49, 0x43, 0x41, 0x54, 0x45], "IFICATE")
  {
  }

  /** The bytes are the codes of the two lines. */
  lemma BeginIsText()
    ensures var m := PemBegin();
      |m| == 5 + 5 + 5 + 7 + 5 && Spells(m[..5], "-----") && Spells(m[5..10], "BEGIN") && Spells(m[10..15], " CERT")
  {
    Words();
    hide Spells;
    var m := PemBegin();
    assert m[5] == 0x42 && m[6] == 0x45 && m[7] == 0x47 && m[8] == 0x49 && m[9] == 0x4E;
    assert m[10] == 0x20 && m[11] == 0x43 && m[12] == 0x45 && m[13] == 0x52 && m[14] == 0x54;
    hide PemBegin;
    assert m[..5] == [0x2D, 0x2D, 0x2D, 0x2D, 0x2D];
    assert m[5..10] == [0x42, 0x45, 0x47, 0x49, 0x4E];
    assert m[10..15] == [0x20, 0x43, 0x45, 0x52, 0x54];
  }

  lemma BeginEndsAsText()
    ensures Spells(PemBegin()[15..22], "IFICATE") && Spells(PemBegin()[22..], "-----")
  {
    Words();
    hide Spells;
    var m := PemBegin();
    assert m[15] == 0x49 && m[16] == 0x46 && m[17] == 0x49 && m[18] == 0x43 && m[19] == 0x41 && m[20] == 0x54;
    assert m[21] == 0x45 && m[22] == m[23] == m[24] == m[25] == m[26] == 0x2D;
    hide PemBegin;
    assert m[15..22] == [0x49, 0x46, 0x49, 0x43, 0x41, 0x54, 0x45];
    assert m[22..] == [0x2D, 0x2D, 0x2D, 0x2D, 0x2D];
  }

  lemma EndIsText()
    ensures var m := PemEnd();
      && |m| == 5 + 3 + 5 + 7 + 5 && Spells(m[..5], "-----") && Spells(m[5..8], "END")
      && Spells(m[8..13], " CERT") && Spells(m[13..20], "IFICATE") && Spells(m[20..], "-----")
  {
    Words();
    hide Spells;
    var m := PemEnd();
    assert m[..5] == m[20..] == [0x2D, 0x2D, 0x2D, 0x2D, 0x2D];
    assert m[5..8] == [0x45, 0x4E, 0x44];
    assert m[8..13] == [0x20, 0x43, 0x45, 0x52, 0x54];
    assert m[13..20] == [0x49, 0x46, 0x49, 0x43, 0x41, 0x54, 0x45];
  }

  ghost predicate Occurs(s: seq<Byte>, p: seq<Byte>, k: int) {
    0 <= k && k + |p| <= |s| && s[k..k + |p|] == p
  }

  ghost predicate First(s: seq<Byte>, p: seq<Byte>, start: nat, k: int) {
    && start <= k && Occurs(s, p, k)
    && forall j :: start <= j < k ==> !Occurs(s, p, j)
  }

  ghost predicate Absent(s: seq<Byte>, p: seq<Byte>, start: nat) {
    forall j :: start <= j ==> !Occurs(s, p, j)
  }

  /** std::string::find: the first occurrence that does not start before a position. */
  function Find(s: seq<Byte>, p: seq<Byte>, start: nat): (r: Option<nat>)
    ensures r.Some? ==> First(s, p, start, r.value) && r.value + |p| <= |s|
    ensures r.None? ==> Absent(s, p, start)
    decreases |s| - start
  {
    if start + |p| > |s| then None
    else if s[start..start + |p|] == p then Some(start)
    else Find(s, p, start + 1)
  }

  /** A block that the scan returns, as positions. */
  datatype Span = Span(first: nat, end: nat)

  /** The position behind an END marker; a line feed that follows belongs to the block. */
  function BehindEnd(s: seq<Byte>, e: nat): (r: nat)
    requires e + |PemEnd()| <= |s|
    ensures e + 25 <= r <= |s|
  {
    var r := e + |PemEnd()|;
    if r < |s| && s[r] == NEWLINE then r + 1 else r
  }

  function Scan(s: seq<Byte>, pos: nat): (r: seq<Span>)
    ensures forall i :: 0 <= i < |r| ==> pos <= r[i].first < r[i].end <= |s|
    ensures forall i, j :: 0 <= i < j < |r| ==> r[i].end <= r[j].first
    decreases |s| - pos
  {
    hide PemBegin, PemEnd;
    match Find(s, PemBegin(), pos)
    case None => []
    case Some(b) =>
      match Find(s, PemEnd(), b + |PemBegin()|)
      case None => []
      case Some(e) => [Span(b, BehindEnd(s, e))] + Scan(s, BehindEnd(s, e))
  }

  function Texts(s: seq<Byte>, spans: seq<Span>): (r: seq<seq<Byte>>)
    requires forall i :: 0 <= i < |spans| ==> spans[i].first < spans[i].end <= |s|
    ensures |r| == |spans|
    ensures forall i :: 0 <= i < |r| ==> r[i] == s[spans[i].first..spans[i].end]
  {
    if spans == [] then [] else [s[spans[0].first..spans[0].end]] + Texts(s, spans[1..])
  }

  lemma ScanStep(s: seq<Byte>, pos: nat, b: nat, e: nat)
    requires Find(s, PemBegin(), pos) == Some(b) && Find(s, PemEnd(), b + |PemBegin()|) == Some(e)
    ensures Scan(s, pos) == [Span(b, BehindEnd(s, e))] + Scan(s, BehindEnd(s, e))
  {
    hide PemBegin, PemEnd, Find, First, Absent;
  }

  lemma ScanEnd(s: seq<Byte>, pos: nat)
    requires var b := Find(s, PemBegin(), pos);
      b.None? || Find(s, PemEnd(), b.value + |PemBegin()|).None?
    ensures Scan(s, pos) == []
  {
    hide PemBegin, PemEnd, Find, First, Absent;
  }

  /** The scan loop of extract_certificates_from_image. */
  method ScanBlocks(accumulated: seq<Byte>) returns (blocks: seq<seq<Byte>>)
    ensures blocks == Texts(accumulated, Scan(accumulated, 0))
  {
    hide PemBegin, PemEnd, Find, First, Absent, Texts, Scan;
    blocks := [];
    ghost var spans: seq<Span> := [];
    var pos := 0;
    while pos < |accumulated|
      invariant pos <= |accumulated|
      invariant Scan(accumulated, 0) == spans + Scan(accumulated, pos)
      invariant |blocks| == |spans|
      invariant forall i :: 0 <= i < |spans| ==>
          spans[i].first < spans[i].end <= pos && blocks[i] == accumulated[spans[i].first..spans[i].end]
      decreases |accumulated| - pos
    {
      var begin := Find(accumulated, PemBegin(), pos);
      if begin == None {
        break;
      }
      var end := Find(accumulated, PemEnd(), begin.value + |PemBegin()|);
      if end == None {
        break;
      }
      ScanStep(accumulated, pos, begin.value, end.value);
      var next := end.value + |PemEnd()|;
      if next < |accumulated| && accumulated[next] == NEWLINE {
        next := next + 1;
      }
      ScanBounds(accumulated, pos, begin.value, end.value);
      blocks := blocks + [accumulated[begin.value..next]];
      spans := spans + [Span(begin.value, next)];
      pos := next;
    }
    if pos >= |accumulated| {
      NothingBehind(accumulated, PemBegin(), pos);
    }
    ScanEnd(accumulated, pos);
    assert Scan(accumulated, 0) == spans;
    assert blocks == Texts(accumulated, spans);
  }

  lemma ScanBounds(s: seq<Byte>, pos: nat, b: nat, e: nat)
    requires Find(s, PemBegin(), pos) == Some(b) && Find(s, PemEnd(), b + |PemBegin()|) == Some(e)
    ensures pos <= b < e && e + |PemEnd()| <= |s|
  {
    hide PemBegin, PemEnd, Find, Occurs, Absent;
  }

  lemma NothingBehind(s: seq<Byte>, p: seq<Byte>, pos: nat)
    requires |s| <= pos && |p| > 0
    ensures Find(s, p, pos) == None
  {
  }

  // ----- What the scan finds, without reference to how it searches -----

  /** A block starts at the first BEGIN marker and runs to the first END marker behind it. */
  ghost predicate IsBlock(s: seq<Byte>, pos: nat, b: Span) {
    && First(s, PemBegin(), pos, b.first)
    && exists e: nat ::
        First(s, PemEnd(), b.first + |PemBegin()|, e) && e + |PemEnd()| <= |s| && b.end == BehindEnd(s, e)
  }

  /** No BEGIN marker has an END marker behind it. */
  ghost predicate NoBlock(s: seq<Byte>, pos: nat) {
    forall k: nat :: pos <= k && Occurs(s, PemBegin(), k) ==> Absent(s, PemEnd(), k + |PemBegin()|)
  }

  /** Block after block, with no BEGIN marker between two of them and no block behind the last. */
  ghost predicate IsScan(s: seq<Byte>, pos: nat, r: seq<Span>)
    decreases |r|
  {
    if r == [] then NoBlock(s, pos) else IsBlock(s, pos, r[0]) && IsScan(s, r[0].end, r[1..])
  }

  lemma FindExactly(s: seq<Byte>, p: seq<Byte>, start: nat, k: nat)
    requires First(s, p, start, k)
    ensures Find(s, p, start) == Some(k) && k + |p| <= |s|
  {
    hide Find;
    var r := Find(s, p, start);
    assert r.Some?;
    assert !(r.value < k) && !(k < r.value);
  }

  lemma BlockExactly(s: seq<Byte>, pos: nat, b: Span)
    requires IsBlock(s, pos, b)
    ensures Find(s, PemBegin(), pos) == Some(b.first)
    ensures var e := Find(s, PemEnd(), b.first + |PemBegin()|); e.Some? && b.end == BehindEnd(s, e.value)
  {
    hide PemBegin, PemEnd, Find, First, Absent;
    FindExactly(s, PemBegin(), pos, b.first);
    var e: nat :| First(s, PemEnd(), b.first + |PemBegin()|, e) && e + |PemEnd()| <= |s| && b.end == BehindEnd(s, e);
    FindExactly(s, PemEnd(), b.first + |PemBegin()|, e);
  }

  lemma EmptyScan(s: seq<Byte>, pos: nat)
    ensures Scan(s, pos) == [] <==> NoBlock(s, pos)
  {
    hide PemBegin, PemEnd, Find, Occurs;
    var b := Find(s, PemBegin(), pos);
    if b.Some? && Find(s, PemEnd(), b.value + |PemBegin()|).Some? {
      assert Occurs(s, PemBegin(), b.value);
    }
  }

  lemma FoundIsBlock(s: seq<Byte>, pos: nat, b: nat, e: nat)
    requires Find(s, PemBegin(), pos) == Some(b) && Find(s, PemEnd(), b + |PemBegin()|) == Some(e)
    ensures IsBlock(s, pos, Span(b, BehindEnd(s, e)))
  {
    hide PemBegin, PemEnd, Find, First, Absent;
  }

  lemma {:induction false} ScanIsScan(s: seq<Byte>, pos: nat)
    ensures IsScan(s, pos, Scan(s, pos))
    decreases |s| - pos
  {
    hide PemBegin, PemEnd, Find, First, NoBlock, Absent, IsBlock;
    EmptyScan(s, pos);
    var r := Scan(s, pos);
    if r != [] {
      var b := Find(s, PemBegin(), pos).value;
      var e := Find(s, PemEnd(), b + |PemBegin()|).value;
      hide Scan;
      ScanStep(s, pos, b, e);
      FoundIsBlock(s, pos, b, e);
      ScanIsScan(s, r[0].end);
      assert r[1..] == Scan(s, r[0].end);
    }
  }

  lemma {:induction false} IsScanIsScan(s: seq<Byte>, pos: nat, r: seq<Span>)
    requires IsScan(s, pos, r)
    ensures r == Scan(s, pos)
    decreases |r|
  {
    hide PemBegin, PemEnd, Find, First, NoBlock, Absent, IsBlock, Scan;
    if r == [] {
      EmptyScan(s, pos);
    } else {
      BlockExactly(s, pos, r[0]);
      ScanStep(s, pos, r[0].first, Find(s, PemEnd(), r[0].first + |PemBegin()|).value);
      IsScanIsScan(s, r[0].end, r[1..]);
    }
  }

  /** The scan finds exactly the blocks. */
  lemma ScanExactly(s: seq<Byte>, pos: nat, r: seq<Span>)
    ensures r == Scan(s, pos) <==> IsScan(s, pos, r)
  {
    hide *;
    ScanIsScan(s, pos);
    if IsScan(s, pos, r) {
      IsScanIsScan(s, pos, r);
    }
  }

  // ----- Texts that hold certificates -----

  /** Some text that is not a certificate, and a certificate behind it. */
  datatype Item = Item(gap: seq<Byte>, body: seq<Byte>, newline: bool)

  function Block(item: Item): seq<Byte> {
    PemBegin() + item.body + PemEnd() + (if item.newline then [NEWLINE] else [])
  }

  function Layout(items: seq<Item>, tail: seq<Byte>): seq<Byte> {
    if items == [] then tail else items[0].gap + (Block(items[0]) + Layout(items[1..], tail))
  }

  /** The marker does not start inside the text, not even when the text ends with half of it. */
  ghost predicate Clear(x: seq<Byte>, marker: seq<Byte>) {
    forall j :: 0 <= j < |x| ==> !Occurs(x + marker, marker, j)
  }

  ghost predicate WellFormed(items: seq<Item>, tail: seq<Byte>) {
    if items == [] then NoBlock(tail, 0)
    else
      && Clear(items[0].gap, PemBegin())
      && Clear(items[0].body, PemEnd())
      && (!items[0].newline ==> var rest := Layout(items[1..], tail); rest == [] || rest[0] != NEWLINE)
      && WellFormed(items[1..], tail)
  }

  function Blocks(items: seq<Item>): (r: seq<seq<Byte>>)
    ensures |r| == |items|
  {
    if items == [] then [] else [Block(items[0])] + Blocks(items[1..])
  }

  /** Text without a dash is clear of both markers (RFC 7468, section 3: base64 has none). */
  lemma DashFreeIsClear(x: seq<Byte>)
    requires DASH !in x
    ensures Clear(x, PemBegin()) && Clear(x, PemEnd())
  {
    hide PemBegin, PemEnd;
    DashFree(x, PemBegin());
    DashFree(x, PemEnd());
  }

  lemma DashFree(x: seq<Byte>, marker: seq<Byte>)
    requires DASH !in x && marker != [] && marker[0] == DASH
    ensures Clear(x, marker)
  {
    var s := x + marker;
    forall j | 0 <= j < |x| ensures !Occurs(s, marker, j) {
      assert s[j] != marker[0];
      assert j + |marker| <= |s| ==> s[j..j + |marker|][0] == s[j];
    }
  }

  lemma OccursShifted(front: seq<Byte>, s: seq<Byte>, p: seq<Byte>, k: int)
    requires 0 <= k
    ensures Occurs(front + s, p, |front| + k) == Occurs(s, p, k)
  {
    if k + |p| <= |s| {
      assert (front + s)[|front| + k..|front| + k + |p|] == s[k..k + |p|];
    }
  }

  lemma FindShifted(front: seq<Byte>, s: seq<Byte>, p: seq<Byte>, start: nat)
    ensures var r := Find(s, p, start);
      Find(front + s, p, |front| + start) == if r.None? then None else Some(|front| + r.value)
  {
    hide Find, Occurs;
    var r, t := Find(s, p, start), Find(front + s, p, |front| + start);
    if r.Some? {
      OccursShifted(front, s, p, r.value);
      if t.Some? {
        OccursShifted(front, s, p, t.value - |front|);
      }
    } else if t.Some? {
      OccursShifted(front, s, p, t.value - |front|);
    }
  }

  function Shifted(spans: seq<Span>, n: nat): (r: seq<Span>)
    ensures |r| == |spans|
    ensures forall i :: 0 <= i < |r| ==> r[i] == Span(n + spans[i].first, n + spans[i].end)
  {
    seq(|spans|, i requires 0 <= i < |spans| => Span(n + spans[i].first, n + spans[i].end))
  }

  lemma ShiftedCons(b: Span, rest: seq<Span>, n: nat)
    ensures Shifted([b] + rest, n) == [Span(n + b.first, n + b.end)] + Shifted(rest, n)
  {
  }

  lemma NoneShifted(n: nat)
    ensures Shifted([], n) == []
  {
  }

  lemma BehindEndShifted(front: seq<Byte>, s: seq<Byte>, e: nat)
    requires e + |PemEnd()| <= |s|
    ensures BehindEnd(front + s, |front| + e) == |front| + BehindEnd(s, e)
  {
    hide PemEnd;
  }

  lemma {:induction false} ScanShifted(front: seq<Byte>, s: seq<Byte>, pos: nat)
    ensures Scan(front + s, |front| + pos) == Shifted(Scan(s, pos), |front|)
    decreases |s| - pos
  {
    hide PemBegin, PemEnd, Find, Scan, First, Absent, BehindEnd, Shifted;
    FindShifted(front, s, PemBegin(), pos);
    var b := Find(s, PemBegin(), pos);
    if b.Some? {
      FindShifted(front, s, PemEnd(), b.value + |PemBegin()|);
      var e := Find(s, PemEnd(), b.value + |PemBegin()|);
      if e.Some? {
        ScanBounds(s, pos, b.value, e.value);
        ScanStep(s, pos, b.value, e.value);
        ScanStep(front + s, |front| + pos, |front| + b.value, |front| + e.value);
        var next := BehindEnd(s, e.value);
        BehindEndShifted(front, s, e.value);
        ScanShifted(front, s, next);
        ShiftedCons(Span(b.value, next), Scan(s, next), |front|);
        return;
      }
    }
    ScanEnd(s, pos);
    ScanEnd(front + s, |front| + pos);
    NoneShifted(|front|);
  }

  /** What is found behind some text does not depend on that text. */
  lemma TextsShifted(front: seq<Byte>, s: seq<Byte>)
    ensures Texts(front + s, Scan(front + s, |front|)) == Texts(s, Scan(s, 0))
  {
    hide *;
    ScanShifted(front, s, 0);
    var a, b := Scan(front + s, |front|), Scan(s, 0);
    assert |front| + 0 == |front|;
    forall i | 0 <= i < |b| ensures (front + s)[a[i].first..a[i].end] == s[b[i].first..b[i].end] {
      SliceShifted(front, s, b[i].first, b[i].end);
    }
  }

  lemma SliceShifted(front: seq<Byte>, s: seq<Byte>, i: nat, j: nat)
    requires i <= j <= |s|
    ensures (front + s)[|front| + i..|front| + j] == s[i..j]
  {
  }

  /** A marker behind clear text is the first one. */
  lemma FindBehindClear(front: seq<Byte>, x: seq<Byte>, marker: seq<Byte>, back: seq<Byte>)
    requires Clear(x, marker)
    ensures Find(front + (x + (marker + back)), marker, |front|) == Some(|front| + |x|)
  {
    hide Find;
    var s := x + (marker + back);
    assert Occurs(s, marker, |x|);
    forall j | 0 <= j < |x| ensures !Occurs(s, marker, j) {
      assert !Occurs(x + marker, marker, j);
      assert s[j..j + |marker|] == (x + marker)[j..j + |marker|];
    }
    FindExactly(s, marker, 0, |x|);
    FindShifted(front, s, marker, 0);
  }

  lemma FirstItemIsFound(item: Item, rest: seq<Byte>)
    requires Clear(item.gap, PemBegin()) && Clear(item.body, PemEnd())
    requires item.newline || rest == [] || rest[0] != NEWLINE
    ensures var front := item.gap + Block(item); var s := item.gap + (Block(item) + rest);
      s == front + rest && Scan(s, 0) == [Span(|item.gap|, |front|)] + Scan(s, |front|)
  {
    hide PemBegin, PemEnd, Find, Occurs, Clear, First, Absent, Scan;
    var line: seq<Byte> := if item.newline then [NEWLINE] else [];
    var s := item.gap + (Block(item) + rest);
    var inner := item.body + (PemEnd() + (line + rest));
    var opening := item.gap + PemBegin();
    var upTo := opening + item.body + PemEnd();
    var e := |opening| + |item.body|;
    Regroup(item.gap, PemBegin(), item.body, PemEnd(), line, rest);
    FindBehindClear([], item.gap, PemBegin(), inner);
    FindBehindClear(opening, item.body, PemEnd(), line + rest);
    EndOfBlock(upTo, line, rest, e);
    ScanStep(s, 0, |item.gap|, e);
  }

  lemma Associates(a: seq<Byte>, b: seq<Byte>, c: seq<Byte>)
    ensures (a + b) + c == a + (b + c)
  {
  }

  /** The ways in which a block between two texts can be read. */
  lemma Regroup(gap: seq<Byte>, begin: seq<Byte>, body: seq<Byte>, end: seq<Byte>, line: seq<Byte>, rest: seq<Byte>)
    ensures var block := begin + body + end + line; var s := gap + (block + rest);
      && s == [] + (gap + (begin + (body + (end + (line + rest)))))
      && s == (gap + begin) + (body + (end + (line + rest)))
      && s == (gap + begin + body + end) + (line + rest)
      && s == (gap + block) + rest
  {
    Associates(begin + body + end, line, rest);
    Associates(begin + body, end, line + rest);
    Associates(begin, body, end + (line + rest));
    Associates(gap, begin, body + (end + (line + rest)));
    Associates(gap + begin, body, end + (line + rest));
    Associates(gap + begin + body, end, line + rest);
    Associates(gap, begin + body + end + line, rest);
    assert [] + (gap + (begin + (body + (end + (line + rest))))) == gap + (begin + (body + (end + (line + rest))));
  }

  lemma EndOfBlock(upTo: seq<Byte>, line: seq<Byte>, rest: seq<Byte>, e: nat)
    requires |upTo| == e + |PemEnd()|
    requires line == [NEWLINE] || (line == [] && (rest == [] || rest[0] != NEWLINE))
    ensures BehindEnd(upTo + (line + rest), e) == |upTo| + |line|
  {
    hide PemEnd;
  }

  /** Scanning certificates with clear text around them yields exactly the certificates. */
  lemma {:induction false} ItemsAreFound(items: seq<Item>, tail: seq<Byte>)
    requires WellFormed(items, tail)
    ensures var s := Layout(items, tail); Texts(s, Scan(s, 0)) == Blocks(items)
  {
    hide PemBegin, PemEnd, Find, Occurs, Clear, Block;
    var s := Layout(items, tail);
    if items == [] {
      NothingToFind(tail);
    } else {
      hide Scan;
      var rest := Layout(items[1..], tail);
      ItemsAreFound(items[1..], tail);
      FirstItemIsFound(items[0], rest);
      TextsShifted(items[0].gap + Block(items[0]), rest);
      assert s[|items[0].gap|..|items[0].gap + Block(items[0])|] == Block(items[0]);
      var spans := Scan(s, 0);
      assert spans[1..] == Scan(s, |items[0].gap + Block(items[0])|);
    }
  }

  lemma NothingToFind(tail: seq<Byte>)
    requires NoBlock(tail, 0)
    ensures Scan(tail, 0) == []
  {
    EmptyScan(tail, 0);
  }

  /** Every text is of this kind, so the scan of every text is known. */
  lemma {:induction false} EveryTextIsALayout(s: seq<Byte>) returns (items: seq<Item>, tail: seq<Byte>)
    ensures s == Layout(items, tail) && WellFormed(items, tail)
    decreases |s|
  {
    hide PemBegin, PemEnd, Find;
    var r := Scan(s, 0);
    if r == [] {
      ScanIsScan(s, 0);
      items, tail := [], s;
    } else {
      var b := Find(s, PemBegin(), 0).value;
      var e := Find(s, PemEnd(), b + |PemBegin()|).value;
      var end := BehindEnd(s, e);
      var item := Item(s[..b], s[b + |PemBegin()|..e], end == e + |PemEnd()| + 1);
      var later;
      later, tail := EveryTextIsALayout(s[end..]);
      items := [item] + later;
      assert items[1..] == later;
      ItemIsClear(s, b, e);
      BlockIsCut(s, b, e, item);
      hide Block;
      assert s == item.gap + (Block(item) + s[end..]);
    }
  }

  lemma BlockIsCut(s: seq<Byte>, b: nat, e: nat, item: Item)
    requires Find(s, PemBegin(), 0) == Some(b) && Find(s, PemEnd(), b + |PemBegin()|) == Some(e)
    requires b + |PemBegin()| <= e && e + |PemEnd()| <= |s|
    requires item == Item(s[..b], s[b + |PemBegin()|..e], BehindEnd(s, e) == e + |PemEnd()| + 1)
    ensures b <= BehindEnd(s, e) && Block(item) == s[b..BehindEnd(s, e)]
  {
    hide PemBegin, PemEnd, Find, Absent;
    var k, n := b + |PemBegin()|, e + |PemEnd()|;
    assert s[b..k] == PemBegin() && s[e..n] == PemEnd();
    assert s[b..n] == s[b..k] + s[k..e] + s[e..n];
    assert n < |s| ==> s[n..n + 1] == [s[n]];
    assert s[b..BehindEnd(s, e)] == s[b..n] + s[n..BehindEnd(s, e)];
  }

  lemma ItemIsClear(s: seq<Byte>, b: nat, e: nat)
    requires Find(s, PemBegin(), 0) == Some(b) && Find(s, PemEnd(), b + |PemBegin()|) == Some(e)
    ensures Clear(s[..b], PemBegin()) && Clear(s[b + |PemBegin()|..e], PemEnd())
  {
    hide PemBegin, PemEnd, Find;
    StartIsClear(s, PemBegin(), 0, b);
    StartIsClear(s, PemEnd(), b + |PemBegin()|, e);
    assert s[0..b] == s[..b];
  }

  lemma StartIsClear(s: seq<Byte>, marker: seq<Byte>, start: nat, k: nat)
    requires First(s, marker, start, k)
    ensures k <= |s| && Clear(s[start..k], marker)
  {
    var x, n := s[start..k], |marker|;
    assert x + marker == s[start..k + n];
    forall j | 0 <= j < |x| ensures !Occurs(x + marker, marker, j) {
      assert !Occurs(s, marker, start + j);
      SliceOfSlice(s, start, k + n, j, j + n);
    }
  }

  lemma SliceOfSlice(s: seq<Byte>, i: nat, j: nat, k: nat, l: nat)
    requires i <= j <= |s| && k <= l <= j - i
    ensures s[i..j][k..l] == s[i + k..i + l]
  {
    var x, y := s[i..j][k..l], s[i + k..i + l];
    assert |x| == |y|;
    forall n | 0 <= n < |x| ensures x[n] == y[n] {
      assert x[n] == s[i..j][k + n] == s[i + (k + n)];
    }
  }
}
