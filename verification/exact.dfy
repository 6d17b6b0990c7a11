// The other half of the round trip: a command that comes back unchanged was
// well formed to begin with. Together with CommandRoundTrip this says exactly
// which commands the codec transports.
module Exact {
  import opened Bodies
  import opened Bytes
  import opened Commands
  import opened Decoder
  import opened Encoder
  import opened Headers
  import opened RoundTrip
  import opened Text
  import opened Wrappers

  // ------------------------------------------------------ lines without headers

  lemma FieldIsPlain(line: bytes, field: bytes)
    requires CrlfFree(line) && field in Split(line, SPACE)
    ensures SPACE !in field && CrlfFree(field)
  {
    SplitIsCrlfFree(line, SPACE);
  }

  lemma PubFrameIsWellFormed(body: bytes, p: Publish, n: nat)
    requires DecodePub(body) == Advance(CPublish(p), n)
    ensures WellFormedPub(p)
  {
    hide ValidUtf8, Split, ParseUsize;
    var (metadata, next) := NextSlice(body, 0).value;
    var fields := Split(metadata, SPACE);
    FieldIsPlain(metadata, fields[0]);
    FieldIsPlain(metadata, fields[1]);
  }

  lemma SubFrameIsWellFormed(body: bytes, s: Subscribe, n: nat)
    requires DecodeSub(body) == Advance(CSubscribe(s), n)
    ensures WellFormedSub(s)
  {
    hide ValidUtf8, Split;
    var metadata := NextSlice(body, 0).value.0;
    var fields := Split(metadata, SPACE);
    FieldIsPlain(metadata, fields[0]);
    FieldIsPlain(metadata, fields[1]);
    FieldIsPlain(metadata, fields[|fields| - 1]);
  }

  lemma UnsubFrameIsWellFormed(body: bytes, u: Unsubscribe, n: nat)
    requires DecodeUnsub(body) == Advance(CUnsubscribe(u), n)
    ensures WellFormedUnsub(u)
  {
    hide ValidUtf8, ParseUsize, Split;
    var metadata := NextSlice(body, 0).value.0;
    var fields := Split(metadata, SPACE);
    FieldIsPlain(metadata, fields[0]);
    if |fields| == 1 {
      JoinSplit(metadata, SPACE);
    }
  }

  // A slice as long as the printed line is the printed line.
  lemma SliceIsLine(line: bytes, tail: bytes)
    requires NextSlice(line + CRLF + tail, 0).Some?
    requires NextSlice(line + CRLF + tail, 0).value.1 == |line| + 2
    ensures NextSlice(line + CRLF + tail, 0).value.0 == line && CrlfFree(line)
  {
    var body := line + CRLF + tail;
    var slice := NextSlice(body, 0).value.0;
    assert slice == (slice + CRLF)[..|line|];
    assert body[0..|line| + 2][..|line|] == line;
  }

  lemma ConnectFrameIsFaithful(json: Json, c: Connect, tail: bytes)
    requires DecodeConnect(json, json.printConnect(c) + CRLF + tail)
          == Advance(CConnect(c), |json.printConnect(c)| + 2)
    ensures json.Faithful(c)
  {
    SliceIsLine(json.printConnect(c), tail);
  }

  // ----------------------------------------------------------------- headers

  // A terminated text has one way only to be cut into CRLF-free lines; any
  // other cutting has fewer pieces.
  lemma {:induction false} FewerPieces(pieces: seq<bytes>, lines: seq<bytes>)
    requires Terminated(pieces) == Terminated(lines)
    requires forall l :: l in lines ==> CrlfFree(l)
    ensures |pieces| <= |lines|
    ensures |pieces| == |lines| ==> pieces == lines
    decreases |lines|
  {
    if pieces != [] && lines != [] {
      var text := Terminated(lines);
      var p, l := pieces[0], lines[0];
      HeadsCompare(p, Terminated(pieces[1..]), l, Terminated(lines[1..]));
      if |p| == |l| {
        FewerPieces(pieces[1..], lines[1..]);
        assert pieces == [p] + pieces[1..] && lines == [l] + lines[1..];
      } else {
        var pieces' := [p[|l| + 2..]] + pieces[1..];
        TerminatedPrepend(p[|l| + 2..], pieces[1..]);
        FewerPieces(pieces', lines[1..]);
      }
    }
  }

  lemma HeadsCompare(p: bytes, ps: bytes, l: bytes, ls: bytes)
    requires p + CRLF + ps == l + CRLF + ls && CrlfFree(l)
    ensures |p| == |l| || |p| >= |l| + 2
    ensures |p| == |l| ==> p == l && ps == ls
    ensures |p| >= |l| + 2 ==> p[|l| + 2..] + CRLF + ps == ls
  {
    var text := p + CRLF + ps;
    assert text[|p|] == CR && text[|p| + 1] == LF;
    assert text[|l|] == CR && text[|l| + 1] == LF;
    CrlfNotBefore(l, ls, |p|);
    if |p| == |l| {
      assert p == text[..|p|] && ps == text[|p| + 2..];
      assert l == text[..|l|] && ls == text[|l| + 2..];
    } else {
      assert ls == text[|l| + 2..];
      assert text[|l| + 2..] == p[|l| + 2..] + CRLF + ps;
    }
  }

  lemma CrlfNotBefore(l: bytes, ls: bytes, q: nat)
    requires CrlfFree(l) && CrlfAt(l + CRLF + ls, q)
    ensures q >= |l| && q != |l| + 1
  {
    FirstSlice(l, ls);
    assert FindCrlf(l + CRLF + ls, 0) == |l|;
  }

  // Values per name, summed over an enumeration, count the lines.
  function TotalOf(order: seq<bytes>, hs: seq<Header>): nat {
    if order == [] then 0 else |ValuesOf(hs, order[0])| + TotalOf(order[1..], hs)
  }

  lemma {:induction false} TotalOfNone(order: seq<bytes>)
    ensures TotalOf(order, []) == 0
    decreases |order|
  {
    if order != [] {
      TotalOfNone(order[1..]);
    }
  }

  lemma {:induction false} TotalOfOneMore(order: seq<bytes>, hs: seq<Header>)
    requires hs != []
    requires forall i, j :: 0 <= i < j < |order| ==> order[i] != order[j]
    ensures TotalOf(order, hs) == TotalOf(order, hs[1..]) + if hs[0].name in order then 1 else 0
    decreases |order|
  {
    if order != [] {
      TotalOfOneMore(order[1..], hs);
      assert order == [order[0]] + order[1..];
      assert order[0] !in order[1..];
    }
  }

  lemma {:induction false} TotalCountsLines(order: seq<bytes>, hs: seq<Header>)
    requires forall i, j :: 0 <= i < j < |order| ==> order[i] != order[j]
    requires forall h :: h in hs ==> h.name in order
    ensures TotalOf(order, hs) == |hs|
    decreases |hs|
  {
    if hs == [] {
      TotalOfNone(order);
    } else {
      TotalOfOneMore(order, hs);
      assert hs[0] in hs;
      assert forall h :: h in hs[1..] ==> h in hs;
      TotalCountsLines(order, hs[1..]);
    }
  }

  lemma {:induction false} TotalDependsOnValues(order: seq<bytes>, a: seq<Header>, b: seq<Header>)
    requires forall n :: n in order ==> ValuesOf(a, n) == ValuesOf(b, n)
    ensures TotalOf(order, a) == TotalOf(order, b)
    decreases |order|
  {
    if order != [] {
      assert forall n :: n in order[1..] ==> n in order;
      TotalDependsOnValues(order[1..], a, b);
    }
  }

  lemma {:induction false} HasValues(hs: seq<Header>, h: Header)
    requires h in hs
    ensures h.value in ValuesOf(hs, h.name)
    decreases |hs|
  {
    if hs[0] != h {
      assert hs == [hs[0]] + hs[1..];
      HasValues(hs[1..], h);
    }
  }

  lemma {:induction false} ValueHasLine(hs: seq<Header>, name: bytes, value: bytes)
    requires value in ValuesOf(hs, name)
    ensures Header(name, value) in hs
    decreases |hs|
  {
    if hs[0] != Header(name, value) {
      ValueHasLine(hs[1..], name, value);
    }
  }

  lemma ValuesOfTail(hs: seq<Header>, name: bytes)
    requires hs != []
    ensures ValuesOf(hs[1..], name) == if hs[0].name == name then ValuesOf(hs, name)[1..] else ValuesOf(hs, name)
  {
  }

  lemma {:induction false} SameNamesSameValues(a: seq<Header>, b: seq<Header>)
    requires |a| == |b|
    requires forall i :: 0 <= i < |a| ==> a[i].name == b[i].name
    requires forall n :: ValuesOf(a, n) == ValuesOf(b, n)
    ensures a == b
    decreases |a|
  {
    if a != [] {
      var n := a[0].name;
      assert ValuesOf(a, n)[0] == a[0].value && ValuesOf(b, n)[0] == b[0].value;
      forall k
        ensures ValuesOf(a[1..], k) == ValuesOf(b[1..], k)
      {
        ValuesOfTail(a, k);
        ValuesOfTail(b, k);
      }
      SameNamesSameValues(a[1..], b[1..]);
      assert a == [a[0]] + a[1..] && b == [b[0]] + b[1..];
    }
  }

  // A printed line that is accepted at all keeps its name.
  lemma AcceptedKeepsName(h: Header)
    requires ParseHeader(PrintHeader(h)).Ok?
    ensures ParseHeader(PrintHeader(h)).value.name == h.name
  {
    hide ValidUtf8, Split;
    var tail := [SPACE] + h.value;
    SplitCounts(PrintHeader(h), COLON);
    SeparatorsAdd(h.name, COLON, tail);
    assert COLON !in multiset(h.name);
    SplitFirst(h.name, COLON, tail);
  }

  lemma SeparatorsAdd(a: bytes, d: byte, b: bytes)
    ensures multiset(a + [d] + b)[d] == multiset(a)[d] + 1 + multiset(b)[d]
  {
  }

  lemma ReturnedLineIsWellFormed(h: Header)
    requires GoodLine(PrintHeader(h)) && ParseHeader(PrintHeader(h)) == Ok(h)
    ensures WellFormedHeader(h)
  {
    hide ValidUtf8;
    ParsedHeaderIsPrintable(h);
    var tail := [SPACE] + h.value;
    var line := PrintHeader(h);
    SplitFirst(h.name, COLON, tail);
    SplitNone(tail, COLON);
    SplitIsCrlfFree(line, COLON);
    assert h.name in Split(line, COLON) && tail in Split(line, COLON);
    forall i | 0 <= i < |h.value| - 1
      ensures !CrlfAt(h.value, i)
    {
      assert !CrlfAt(tail, i + 1);
    }
  }

  // If a printed block parses back to the map it was printed from, every line
  // of it was a well-formed header.
  lemma BlockLinesComeBack(order: seq<bytes>, m: HeaderMap)
    requires Enumerates(order, m)
    requires ParseHeaders(PrintBlock(order, m), |PrintBlock(order, m)|) == Ok(m)
    ensures GoodLines(PrintLines(Flatten(order, m)))
    ensures ParsedLines(PrintLines(Flatten(order, m))) == Flatten(order, m)
    ensures Collect(map[], Flatten(order, m)) == m
  {
    hide ValidUtf8, ParseHeader, PrintHeader;
    var block := PrintBlock(order, m);
    var hs := Flatten(order, m);
    var lines := BlockAccepted(block);
    BlockParses(lines);
    SameBlock(PrintLines(hs), lines);
    var gs := ParsedLines(lines);
    forall n
      ensures ValuesOf(gs, n) == ValuesOf(hs, n)
    {
      CollectValues(map[], gs, n);
      ValuesOfFlatten(order, m, n);
    }
    forall h | h in gs
      ensures h.name in order
    {
      HasValues(gs, h);
      CollectValues(map[], gs, h.name);
    }
    TotalCountsLines(order, gs);
    TotalCountsLines(order, hs);
    TotalDependsOnValues(order, gs, hs);
    FewerPieces(PrintLines(hs), lines);
    forall i | 0 <= i < |hs|
      ensures gs[i].name == hs[i].name
    {
      assert GoodLine(lines[i]);
      AcceptedKeepsName(hs[i]);
    }
    SameNamesSameValues(gs, hs);
  }

  lemma SameBlock(a: seq<bytes>, b: seq<bytes>)
    requires Block(a) == Block(b)
    ensures Terminated(a) == Terminated(b)
  {
    var head := NATS_VERSION + CRLF;
    assert Block(a)[|head|..|Block(a)| - 2] == Terminated(a);
    assert Block(b)[|head|..|Block(b)| - 2] == Terminated(b);
  }

  lemma HeadersExactlyWellFormed(order: seq<bytes>, m: HeaderMap)
    requires Enumerates(order, m)
    ensures ParseHeaders(PrintBlock(order, m), |PrintBlock(order, m)|) == Ok(m) <==> WellFormedHeaders(m)
  {
    hide ParseHeaders, PrintBlock;
    if WellFormedHeaders(m) {
      HeaderBlockRoundTrip(order, m);
    }
    if ParseHeaders(PrintBlock(order, m), |PrintBlock(order, m)|) == Ok(m) {
      ReturnedHeadersAreWellFormed(order, m);
    }
  }

  lemma ReturnedHeadersAreWellFormed(order: seq<bytes>, m: HeaderMap)
    requires Enumerates(order, m)
    requires ParseHeaders(PrintBlock(order, m), |PrintBlock(order, m)|) == Ok(m)
    ensures WellFormedHeaders(m)
  {
    hide *;
    BlockLinesComeBack(order, m);
    var hs := Flatten(order, m);
    forall h | h in hs
      ensures WellFormedHeader(h)
    {
      FlattenedLineComesBack(hs, h);
    }
    MapOfGoodLines(hs, m);
  }

  lemma FlattenedLineComesBack(hs: seq<Header>, h: Header)
    requires h in hs && GoodLines(PrintLines(hs)) && ParsedLines(PrintLines(hs)) == hs
    ensures WellFormedHeader(h)
  {
    hide GoodLine, ParseHeader, PrintHeader, WellFormedHeader;
    var lines := PrintLines(hs);
    var i :| 0 <= i < |hs| && hs[i] == h;
    assert lines[i] in lines;
    ReturnedLineIsWellFormed(h);
  }

  lemma MapOfGoodLines(hs: seq<Header>, m: HeaderMap)
    requires Collect(map[], hs) == m && forall h :: h in hs ==> WellFormedHeader(h)
    ensures WellFormedHeaders(m)
  {
    hide Collect, ValuesOf, WellFormedHeader;
    forall n | n in m
      ensures m[n] != [] && forall v :: v in m[n] ==> WellFormedHeader(Header(n, v))
    {
      CollectValues(map[], hs, n);
      forall v | v in m[n]
        ensures WellFormedHeader(Header(n, v))
      {
        ValueHasLine(hs, n, v);
      }
    }
  }

  // -------------------------------------------------------------------- HPUB

  // What an HPUB frame says about the bytes it came from.
  lemma HPubFrame(body: bytes, p: HPublish, n: nat)
    requires DecodeHPub(body) == Advance(CHPublish(p), n)
    ensures Token(p.subject) && OptToken(p.replyTo)
    ensures p.headerBytes <= p.totalBytes < USIZE_LIMIT
    ensures var next := NextSlice(body, 0).value.1;
            HPubSlices(body, next, p.subject, p.replyTo, p.headerBytes, p.totalBytes) == Advance(CHPublish(p), n)
  {
    hide ValidUtf8, Split, HPubBlocks, HPubSlices;
    var (metadata, next) := NextSlice(body, 0).value;
    var fields := Split(metadata, SPACE);
    FieldIsPlain(metadata, fields[0]);
    FieldIsPlain(metadata, fields[1]);
    if |fields| == 4 {
      HPubBlocksFrame(body, next, fields[0], Some(fields[1]), fields[2], fields[3], p, n);
    } else {
      HPubBlocksFrame(body, next, fields[0], None, fields[1], fields[2], p, n);
    }
  }

  lemma HPubBlocksFrame(
    body: bytes, next: nat, subject: bytes, replyTo: Option<bytes>, header: bytes, total: bytes, p: HPublish, n: nat)
    requires next <= |body|
    requires HPubBlocks(body, next, subject, replyTo, header, total) == Advance(CHPublish(p), n)
    ensures subject == p.subject && replyTo == p.replyTo && ValidUtf8(subject) && OptUtf8(replyTo)
    ensures p.headerBytes <= p.totalBytes < USIZE_LIMIT
    ensures HPubSlices(body, next, subject, replyTo, p.headerBytes, p.totalBytes) == Advance(CHPublish(p), n)
  {
    hide ValidUtf8, ParseUsize, ParseHeaders;
  }

  lemma HPubBlocksOf(body: bytes, next: nat, p: HPublish, n: nat)
    requires next <= |body| && p.headerBytes <= p.totalBytes
    requires HPubSlices(body, next, p.subject, p.replyTo, p.headerBytes, p.totalBytes) == Advance(CHPublish(p), n)
    ensures n == next + p.totalBytes + 2
    ensures next + p.totalBytes <= |body|
    ensures ParseHeaders(body[next..next + p.headerBytes], p.headerBytes) == Ok(p.headers)
    ensures p.payload == body[next + p.headerBytes..next + p.totalBytes] && ValidUtf8(p.payload)
  {
    hide ValidUtf8, ParseHeaders;
  }

  lemma HPubFrameIsWellFormed(p: HPublish, order: seq<bytes>, rest: bytes)
    requires Enumerates(order, p.headers)
    requires var line := Join(HPubFields(p), SPACE);
             var tail := PrintBlock(order, p.headers) + p.payload + CRLF + rest;
             DecodeHPub(line + CRLF + tail)
             == Advance(CHPublish(p), |line| + 2 + |PrintBlock(order, p.headers)| + |p.payload| + 2)
    ensures WellFormedHPub(p, order)
  {
    hide ValidUtf8, Join, DecodeHPub, HPubSlices, PrintBlock, ParseHeaders, WellFormedHeaders, Token, Split;
    var line := Join(HPubFields(p), SPACE);
    var block := PrintBlock(order, p.headers);
    var body := line + CRLF + (block + p.payload + CRLF + rest);
    var n := |line| + 2 + |block| + |p.payload| + 2;
    HPubFrame(body, p, n);
    HPubFieldsComeBack(p);
    FirstSlice(line, block + p.payload + CRLF + rest);
    HPubBlocksOf(body, |line| + 2, p, n);
    assert p.headerBytes == |block|;
    assert body[|line| + 2..|line| + 2 + |block|] == block;
    HeadersExactlyWellFormed(order, p.headers);
  }

  // ------------------------------------------------------------ all commands

  lemma BodyFrameIsWellFormed(json: Json, c: ClientCommand, order: seq<bytes>, rest: bytes)
    requires OrderFits(c, order)
    requires BodyOf(json, c, Line(json, c) + CRLF + (Tail(c, order) + rest))
          == Advance(c, |Line(json, c)| + 2 + |Tail(c, order)|)
    ensures WellFormed(json, c, order)
  {
    hide DecodeHPub, DecodePub, DecodeSub, DecodeUnsub, PrintBlock, Join, ValidUtf8, WellFormedHeaders, DecodeBare;
    var body := Line(json, c) + CRLF + (Tail(c, order) + rest);
    var n := |Line(json, c)| + 2 + |Tail(c, order)|;
    match c
    case CConnect(connect) => ConnectFrameIsFaithful(json, connect, Tail(c, order) + rest);
    case CPublish(p) => PubFrameIsWellFormed(body, p, n);
    case CHPublish(p) =>
      assert Tail(c, order) + rest == PrintBlock(order, p.headers) + p.payload + CRLF + rest;
      HPubFrameIsWellFormed(p, order, rest);
    case CSubscribe(s) => SubFrameIsWellFormed(body, s, n);
    case CUnsubscribe(u) => UnsubFrameIsWellFormed(body, u, n);
    case CPing =>
    case CPong =>
  }

  lemma FrameHasLine(json: Json, c: ClientCommand, order: seq<bytes>, rest: bytes)
    requires Decode(ClientTable(json), Encode(json, c, order) + rest) == Frame(c, |Encode(json, c, order)|)
    ensures BodyOf(json, c, Line(json, c) + CRLF + (Tail(c, order) + rest))
         == Advance(c, |Line(json, c)| + 2 + |Tail(c, order)|)
  {
    hide BodyOf, ClientTable, Dispatch, Verb, Line, Tail;
    var src := Encode(json, c, order) + rest;
    var body := Line(json, c) + CRLF + (Tail(c, order) + rest);
    assert src == Verb(c) + body;
    DispatchByVerb(json, c, Verb(c), body, FindCrlf(src[..Window(src)], 0));
  }

  lemma FrameFits(json: Json, c: ClientCommand, order: seq<bytes>, rest: bytes)
    requires WellFormed(json, c, order)
    requires Decode(ClientTable(json), Encode(json, c, order) + rest).Frame?
    ensures LineFits(json, c)
  {
    hide ClientTable, Dispatch, Verb, Line, Tail, WellFormed;
    LineIsCrlfFree(json, c, order);
    VerbHasNoCr(c);
    var head := Verb(c) + Line(json, c);
    CrlfFreeAfterNoCr(Verb(c), Line(json, c));
    var src := Encode(json, c, order) + rest;
    var k := FindCrlf(src[..Window(src)], 0);
    assert CrlfAt(src, k);
    assert src == head + CRLF + (Tail(c, order) + rest);
    FirstSlice(head, Tail(c, order) + rest);
    assert FindCrlf(src, 0) == |head|;
    assert k >= |head|;
  }

  // The codec transports a command unchanged, with any bytes behind it,
  // exactly when the command is well formed and its first line fits the window.
  lemma TransportsExactly(json: Json, c: ClientCommand, order: seq<bytes>, rest: bytes)
    requires OrderFits(c, order)
    ensures Decode(ClientTable(json), Encode(json, c, order) + rest) == Frame(c, |Encode(json, c, order)|)
       <==> WellFormed(json, c, order) && LineFits(json, c)
  {
    hide ClientTable, Decode, Encode, WellFormed, LineFits, BodyOf;
    if WellFormed(json, c, order) && LineFits(json, c) {
      CommandRoundTrip(json, c, order, rest);
    }
    if Decode(ClientTable(json), Encode(json, c, order) + rest) == Frame(c, |Encode(json, c, order)|) {
      FrameHasLine(json, c, order, rest);
      BodyFrameIsWellFormed(json, c, order, rest);
      FrameFits(json, c, order, rest);
    }
  }

  lemma CutPayloadBody(p: Publish, rest: bytes)
    requires Token(p.subject) && OptToken(p.replyTo) && p.size == |p.payload| < USIZE_LIMIT
    requires !CrlfFree(p.payload)
    ensures DecodePub(Join(PubFields(p), SPACE) + CRLF + (p.payload + CRLF + rest)) == FatalError(BadPub)
  {
    hide ValidUtf8, Split, Join, Decimal;
    PubFieldsComeBack(p);
    DecimalIsPlain(p.size);
    ParseDecimal(p.size);
    var line := Join(PubFields(p), SPACE);
    var body := line + CRLF + (p.payload + CRLF + rest);
    FirstSlice(line, p.payload + CRLF + rest);
    var i :| 0 <= i < |p.payload| - 1 && CrlfAt(p.payload, i);
    assert CrlfAt(body, |line| + 2 + i);
    assert FindCrlf(body, |line| + 2) <= |line| + 2 + i;
  }

  // A PUB whose payload holds a CRLF is encoded all the same, and the decoder
  // rejects what was encoded.
  lemma PayloadWithCrlfIsRejected(json: Json, p: Publish, rest: bytes)
    requires Token(p.subject) && OptToken(p.replyTo) && p.size == |p.payload| < USIZE_LIMIT
    requires !CrlfFree(p.payload) && LineFits(json, CPublish(p))
    ensures Decode(ClientTable(json), Encode(json, CPublish(p), []) + rest) == Fail(BadPub, 0)
  {
    hide ValidUtf8, ClientTable, Decode, DecodePub, Join, Token;
    var line := Join(PubFields(p), SPACE);
    PubFieldsComeBack(p);
    var tail := p.payload + CRLF + rest;
    DecodeLine(json, CPublish(p), PUB, line, tail);
    CutPayloadBody(p, rest);
    assert Encode(json, CPublish(p), []) + rest == PUB + line + CRLF + tail;
  }

  // "PUB A 2" with the payload CRLF.
  lemma PubWithCrlfExample(json: Json)
    ensures var p := Publish([0x41], None, 2, CRLF);
            Decode(ClientTable(json), Encode(json, CPublish(p), [])) == Fail(BadPub, 0)
  {
    hide Decode, Encode, ClientTable;
    var p := Publish([0x41], None, 2, CRLF);
    AsciiIsUtf8(p.subject);
    assert CrlfAt(p.payload, 0);
    assert Decimal(2) == [0x32];
    assert PubFields(p) == [p.subject, Decimal(2)];
    JoinTwo(p.subject, Decimal(2), SPACE);
    PayloadWithCrlfIsRejected(json, p, []);
    assert Encode(json, CPublish(p), []) + [] == Encode(json, CPublish(p), []);
  }

  lemma HPubBadPayload(p: HPublish, order: seq<bytes>, before: bytes, rest: bytes)
    requires FramedHPub(p, order) && !ValidUtf8(p.payload)
    ensures var body := before + PrintBlock(order, p.headers) + p.payload + CRLF + rest;
            HPubSlices(body, |before|, p.subject, p.replyTo, p.headerBytes, p.totalBytes) == BodyPanic(InvalidUtf8)
  {
    hide ValidUtf8, PrintBlock, ParseHeaders;
    var block := PrintBlock(order, p.headers);
    var body := before + block + p.payload + CRLF + rest;
    assert body[|before| + |block|..|before| + |block| + |p.payload|] == p.payload;
  }

  // An HPUB that is all the protocol asks for is read back exactly when its
  // payload is UTF-8; any other payload makes the decoder panic.
  lemma HPubExactly(json: Json, p: HPublish, order: seq<bytes>, rest: bytes)
    requires FramedHPub(p, order) && LineFits(json, CHPublish(p))
    ensures Decode(ClientTable(json), Encode(json, CHPublish(p), order) + rest)
         == if ValidUtf8(p.payload) then Frame(CHPublish(p), |Encode(json, CHPublish(p), order)|)
            else Panic(InvalidUtf8)
  {
    hide ClientTable, Decode, Encode, FramedHPub, ValidUtf8, LineFits;
    if ValidUtf8(p.payload) {
      CommandRoundTrip(json, CHPublish(p), order, rest);
    } else {
      HPubPanics(json, p, order, rest);
    }
  }

  lemma HPubFromLine(json: Json, p: HPublish, tail: bytes)
    requires CrlfFree(Line(json, CHPublish(p))) && LineFits(json, CHPublish(p))
    ensures var line := Line(json, CHPublish(p));
            Decode(ClientTable(json), HPUB + line + CRLF + tail)
            == Settle(DecodeHPub(line + CRLF + tail), 5, |HPUB + line + CRLF + tail|)
  {
    hide ClientTable, Decode, DecodeHPub, Line, CrlfFree, Settle;
    DecodeLine(json, CHPublish(p), HPUB, Line(json, CHPublish(p)), tail);
  }

  lemma HPubPanics(json: Json, p: HPublish, order: seq<bytes>, rest: bytes)
    requires FramedHPub(p, order) && LineFits(json, CHPublish(p)) && !ValidUtf8(p.payload)
    ensures Decode(ClientTable(json), Encode(json, CHPublish(p), order) + rest) == Panic(InvalidUtf8)
  {
    hide ClientTable, Decode, DecodeHPub, PrintBlock, Encode, Enumerates, WellFormedHeaders, ValidUtf8, Join,
      LineFits, CrlfFree;
    HPubFieldsComeBack(p);
    HPubFromLine(json, p, PrintBlock(order, p.headers) + p.payload + CRLF + rest);
    HPubBadPayloadBody(p, order, rest);
    HPubText(json, p, order, rest);
  }

  lemma HPubBadPayloadBody(p: HPublish, order: seq<bytes>, rest: bytes)
    requires FramedHPub(p, order) && !ValidUtf8(p.payload)
    ensures DecodeHPub(Join(HPubFields(p), SPACE) + CRLF + (PrintBlock(order, p.headers) + p.payload + CRLF + rest))
         == BodyPanic(InvalidUtf8)
  {
    hide DecodeHPub, HPubSlices, PrintBlock, FramedHPub, ValidUtf8, Join;
    var line := Join(HPubFields(p), SPACE);
    var tail := PrintBlock(order, p.headers) + p.payload + CRLF + rest;
    HPubMetadata(p, order, tail);
    HPubBadPayload(p, order, line + CRLF, rest);
    assert line + CRLF + tail == (line + CRLF) + PrintBlock(order, p.headers) + p.payload + CRLF + rest;
  }

  lemma HPubText(json: Json, p: HPublish, order: seq<bytes>, rest: bytes)
    ensures Encode(json, CHPublish(p), order) + rest
         == HPUB + Line(json, CHPublish(p)) + CRLF + (PrintBlock(order, p.headers) + p.payload + CRLF + rest)
  {
    hide Line, PrintBlock;
    var head := HPUB + Line(json, CHPublish(p)) + CRLF;
    assert Encode(json, CHPublish(p), order) == head + (PrintBlock(order, p.headers) + p.payload + CRLF);
  }

  // "HPUB A 12 13" with no header and the one payload byte 0xFF.
  lemma HPubNotUtf8Example(json: Json)
    ensures var p := HPublish([0x41], None, 12, 13, map[], [0xFF]);
            Decode(ClientTable(json), Encode(json, CHPublish(p), [])) == Panic(InvalidUtf8)
  {
    hide Decode, Encode, ClientTable;
    var p := HPublish([0x41], None, 12, 13, map[], [0xFF]);
    assert !ValidUtf8(p.payload);
    ExampleIsFramed(json, p);
    HPubExactly(json, p, [], []);
    assert Encode(json, CHPublish(p), []) + [] == Encode(json, CHPublish(p), []);
  }

  lemma ExampleIsFramed(json: Json, p: HPublish)
    requires p == HPublish([0x41], None, 12, 13, map[], [0xFF])
    ensures FramedHPub(p, []) && LineFits(json, CHPublish(p))
  {
    hide Encode;
    AsciiIsUtf8(p.subject);
    assert Decimal(1) == [0x31];
    assert Decimal(12) == [0x31, 0x32] && Decimal(13) == [0x31, 0x33];
    assert HPubFields(p) == [p.subject, Decimal(12), Decimal(13)];
    JoinThree(p.subject, Decimal(12), Decimal(13), SPACE);
    assert Flatten([], p.headers) == [];
    assert |PrintBlock([], p.headers)| == 12;
  }

  // ------------------------------------------- the hash map's order is free

  function LinesLength(order: seq<bytes>, m: HeaderMap): nat {
    if order == [] then 0 else |HeaderText(Lines(order[0], m))| + LinesLength(order[1..], m)
  }

  lemma {:induction false} TextLength(order: seq<bytes>, m: HeaderMap)
    ensures |HeaderText(Flatten(order, m))| == LinesLength(order, m)
    decreases |order|
  {
    hide HeaderText, Lines;
    if order == [] {
      NoHeaders(m);
    } else {
      HeaderTextAppend(Lines(order[0], m), Flatten(order[1..], m));
      TextLength(order[1..], m);
    }
  }

  lemma {:induction false} LinesLengthOneMore(a: seq<bytes>, name: bytes, b: seq<bytes>, m: HeaderMap)
    ensures LinesLength(a + [name] + b, m) == LinesLength(a + b, m) + |HeaderText(Lines(name, m))|
    decreases |a|
  {
    hide HeaderText, Lines;
    var s := a + [name] + b;
    if a == [] {
      assert s[1..] == b && a + b == b;
    } else {
      assert s[1..] == a[1..] + [name] + b && (a + b)[1..] == a[1..] + b;
      LinesLengthOneMore(a[1..], name, b, m);
    }
  }

  lemma CutAt(t: seq<bytes>, x: bytes) returns (a: seq<bytes>, b: seq<bytes>)
    requires x in t
    ensures t == a + [x] + b
  {
    var i :| 0 <= i < |t| && t[i] == x;
    a, b := t[..i], t[i + 1..];
  }

  lemma WithoutOne(a: seq<bytes>, x: bytes, b: seq<bytes>)
    ensures multiset(a + b) == multiset(a + [x] + b) - multiset{x}
  {
    assert multiset(a + [x] + b) == multiset(a) + multiset{x} + multiset(b);
  }

  lemma {:induction false} LinesLengthPermutes(s: seq<bytes>, t: seq<bytes>, m: HeaderMap)
    requires multiset(s) == multiset(t)
    ensures LinesLength(s, m) == LinesLength(t, m)
    decreases |s|
  {
    hide LinesLength;
    if s == [] {
      assert |multiset(t)| == 0;
      assert t == [];
    } else {
      assert s[0] in multiset(t);
      var a, b := CutAt(t, s[0]);
      assert s == [] + [s[0]] + s[1..] && [] + s[1..] == s[1..];
      WithoutOne(a, s[0], b);
      WithoutOne([], s[0], s[1..]);
      LinesLengthPermutes(s[1..], a + b, m);
      LinesLengthOneMore(a, s[0], b, m);
      LinesLengthOneMore([], s[0], s[1..], m);
    }
  }

  lemma {:induction false} DistinctCounts(s: seq<bytes>, name: bytes)
    requires forall i, j :: 0 <= i < j < |s| ==> s[i] != s[j]
    ensures multiset(s)[name] == if name in s then 1 else 0
    decreases |s|
  {
    if s != [] {
      assert s == [s[0]] + s[1..];
      DistinctCounts(s[1..], name);
      assert s[0] !in s[1..];
    }
  }

  // Two enumerations of one map print blocks of the same length, so the sizes
  // an HPUB announces are right for every order or for none.
  lemma SizesAreOrderFree(p: HPublish, order: seq<bytes>, order': seq<bytes>)
    requires Enumerates(order, p.headers) && Enumerates(order', p.headers)
    ensures |PrintBlock(order, p.headers)| == |PrintBlock(order', p.headers)|
    ensures WellFormedHPub(p, order) <==> WellFormedHPub(p, order')
  {
    hide LinesLength, Flatten, HeaderText, ValidUtf8, WellFormedHeaders, Token, OptToken;
    forall n
      ensures multiset(order)[n] == multiset(order')[n]
    {
      DistinctCounts(order, n);
      DistinctCounts(order', n);
    }
    LinesLengthPermutes(order, order', p.headers);
    TextLength(order, p.headers);
    TextLength(order', p.headers);
    BlockText(order, p.headers);
    BlockText(order', p.headers);
  }

  lemma BlockText(order: seq<bytes>, m: HeaderMap)
    ensures PrintBlock(order, m) == NATS_VERSION + CRLF + HeaderText(Flatten(order, m)) + CRLF
  {
  }
}
