// The server's side of the wire. The repository prints no server commands; the
// layout below is the protocol's, and the one its decoder tests feed it.
module ServerFrames {
  import opened Bodies
  import opened Bytes
  import opened Commands
  import opened Decoder
  import opened Encoder
  import opened HalfFrames
  import opened Headers
  import opened Pieces
  import opened RoundTrip
  import opened Streams
  import opened Text
  import opened Wrappers

  // ------------------------------------------------------------- the layout

  function MsgFields(m: Msg): seq<bytes> {
    [m.subject, m.sid] + Opt(m.replyTo) + [Decimal(m.size)]
  }

  function HMsgFields(m: HMsg): seq<bytes> {
    [m.subject, m.sid] + Opt(m.replyTo) + [Decimal(m.headerBytes), Decimal(m.totalBytes)]
  }

  function ServerVerb(c: ServerCommand): bytes {
    match c
    case SInfo(_) => INFO
    case SMsg(_) => MSG
    case SHMsg(_) => HMSG
    case SPing => PING
    case SPong => PONG
    case SOk => OK
    case SErr(_) => ERR
  }

  function ServerLine(c: ServerCommand): bytes {
    match c
    case SInfo(info) => info.text
    case SMsg(m) => Join(MsgFields(m), SPACE)
    case SHMsg(m) => Join(HMsgFields(m), SPACE)
    case SErr(text) => [QUOTE] + text + [QUOTE]
    case _ => []
  }

  function ServerTail(c: ServerCommand, order: seq<bytes>): bytes {
    match c
    case SMsg(m) => m.payload + CRLF
    case SHMsg(m) => PrintBlock(order, m.headers) + m.payload + CRLF
    case _ => []
  }

  function Layout(c: ServerCommand, order: seq<bytes>): bytes {
    ServerVerb(c) + ServerLine(c) + CRLF + ServerTail(c, order)
  }

  // --------------------------------------------------------- well-formedness

  predicate MsgTokens(m: Msg) {
    Token(m.subject) && Token(m.sid) && OptToken(m.replyTo) && m.size == |m.payload| < USIZE_LIMIT
  }

  // Beyond what the protocol asks: no CRLF in the payload.
  predicate WellFormedMsg(m: Msg) {
    MsgTokens(m) && CrlfFree(m.payload)
  }

  predicate WellFormedHMsg(m: HMsg, order: seq<bytes>) {
    && Token(m.subject) && Token(m.sid) && OptToken(m.replyTo)
    && Enumerates(order, m.headers) && WellFormedHeaders(m.headers)
    && m.headerBytes == |PrintBlock(order, m.headers)|
    && m.totalBytes == m.headerBytes + |m.payload| < USIZE_LIMIT
  }

  predicate WellFormedServer(json: Json, c: ServerCommand, order: seq<bytes>) {
    match c
    case SInfo(info) => CrlfFree(info.text) && json.parseInfo(info.text) == Some(info)
    case SMsg(m) => WellFormedMsg(m)
    case SHMsg(m) => WellFormedHMsg(m, order)
    case SErr(text) => ValidUtf8(text) && CrlfFree(text)
    case _ => true
  }

  predicate ServerLineFits(c: ServerCommand) {
    |ServerVerb(c)| + |ServerLine(c)| + 2 <= BUFSIZE_LIMIT
  }

  // ------------------------------------------------- reaching the right entry

  function ServerBodyOf(json: Json, c: ServerCommand, body: bytes): BodyResult<ServerCommand, ServerError> {
    match c
    case SInfo(_) => DecodeInfo(json, body)
    case SMsg(_) => DecodeMsg(body)
    case SHMsg(_) => DecodeHMsg(body)
    case SPing => DecodeBare(SPing, body)
    case SPong => DecodeBare(SPong, body)
    case SOk => DecodeBare(SOk, body)
    case SErr(_) => DecodeErr(body)
  }

  lemma ServerPrefixes(json: Json)
    ensures var t := ServerTable(json).table;
            && |t| == 7
            && t[0].prefix == PING && t[1].prefix == PONG && t[2].prefix == HMSG && t[3].prefix == MSG
            && t[4].prefix == OK && t[5].prefix == ERR && t[6].prefix == INFO
  {
  }

  lemma ServerEntryBodies(json: Json, body: bytes)
    ensures var t := ServerTable(json).table;
            && t[0].decodeBody(body) == DecodeBare(SPing, body)
            && t[1].decodeBody(body) == DecodeBare(SPong, body)
            && t[2].decodeBody(body) == DecodeHMsg(body)
            && t[3].decodeBody(body) == DecodeMsg(body)
            && t[4].decodeBody(body) == DecodeBare(SOk, body)
            && t[5].decodeBody(body) == DecodeErr(body)
            && t[6].decodeBody(body) == DecodeInfo(json, body)
  {
    hide DecodeBare, DecodeHMsg, DecodeMsg, DecodeErr, DecodeInfo;
  }

  lemma SkipToOk(json: Json, src: bytes, newline: nat)
    requires |src| >= 5 && Lower(src[0]) in {0x2B, 0x2D, 0x69}
    ensures Dispatch(ServerTable(json), src, newline, 0) == Dispatch(ServerTable(json), src, newline, 4)
  {
    hide ServerTable, Dispatch;
    ServerPrefixes(json);
    var t := ServerTable(json);
    SkipEntry(t, src, newline, 0, 0);
    SkipEntry(t, src, newline, 1, 0);
    SkipEntry(t, src, newline, 2, 0);
    SkipEntry(t, src, newline, 3, 0);
  }

  lemma ServerDispatchByVerb(json: Json, c: ServerCommand, word: bytes, body: bytes, newline: nat)
    requires |body| >= 2 && EqIgnoreCase(word, ServerVerb(c))
    ensures Dispatch(ServerTable(json), word + body, newline, 0)
         == Settle(ServerBodyOf(json, c, body), |word|, |word + body|)
  {
    hide DecodeBare, DecodeHMsg, DecodeMsg, DecodeErr, DecodeInfo, Dispatch, Settle, ServerTable;
    ServerPrefixes(json);
    ServerEntryBodies(json, body);
    var t := ServerTable(json);
    var src := word + body;
    SameLetters(word, ServerVerb(c));
    assert forall i :: 0 <= i < |word| ==> src[i] == word[i];
    match c
    case SPing =>
      TakeEntry(t, word, body, newline, 0);
    case SPong =>
      SkipEntry(t, src, newline, 0, 1);
      TakeEntry(t, word, body, newline, 1);
    case SHMsg(_) =>
      SkipEntry(t, src, newline, 0, 0);
      SkipEntry(t, src, newline, 1, 0);
      TakeEntry(t, word, body, newline, 2);
    case SMsg(_) =>
      SkipEntry(t, src, newline, 0, 0);
      SkipEntry(t, src, newline, 1, 0);
      SkipEntry(t, src, newline, 2, 0);
      TakeEntry(t, word, body, newline, 3);
    case SOk =>
      SkipToOk(json, src, newline);
      TakeEntry(t, word, body, newline, 4);
    case SErr(_) =>
      SkipToOk(json, src, newline);
      SkipEntry(t, src, newline, 4, 0);
      TakeEntry(t, word, body, newline, 5);
    case SInfo(_) =>
      SkipToOk(json, src, newline);
      SkipEntry(t, src, newline, 4, 0);
      SkipEntry(t, src, newline, 5, 0);
      TakeEntry(t, word, body, newline, 6);
  }

  lemma ServerVerbHasNoCr(c: ServerCommand)
    ensures CR !in ServerVerb(c) && 3 <= |ServerVerb(c)| <= 5
  {
  }

  lemma ServerDecodeLine(json: Json, c: ServerCommand, word: bytes, line: bytes, tail: bytes)
    requires EqIgnoreCase(word, ServerVerb(c)) && CrlfFree(line) && |word| + |line| + 2 <= BUFSIZE_LIMIT
    ensures Decode(ServerTable(json), word + line + CRLF + tail)
         == Settle(ServerBodyOf(json, c, line + CRLF + tail), |word|, |word + line + CRLF + tail|)
  {
    hide ServerBodyOf, Settle, Dispatch, ServerTable;
    ServerVerbHasNoCr(c);
    WordHasNoCr(word, ServerVerb(c));
    CrlfFreeAfterNoCr(word, line);
    FirstCrlfInWindow(word + line, tail);
    var body := line + CRLF + tail;
    assert word + line + CRLF + tail == word + body;
    ServerDispatchByVerb(json, c, word, body, |word + line|);
  }

  // ------------------------------------------------------- body round trips

  lemma MsgFieldsComeBack(m: Msg)
    requires Token(m.subject) && Token(m.sid) && OptToken(m.replyTo)
    ensures Split(Join(MsgFields(m), SPACE), SPACE) == MsgFields(m)
    ensures CrlfFree(Join(MsgFields(m), SPACE))
  {
    hide ValidUtf8, Split, Join, Decimal;
    DecimalIsPlain(m.size);
    FieldsComeBack(MsgFields(m));
  }

  lemma HMsgFieldsComeBack(m: HMsg)
    requires Token(m.subject) && Token(m.sid) && OptToken(m.replyTo)
    ensures Split(Join(HMsgFields(m), SPACE), SPACE) == HMsgFields(m)
    ensures CrlfFree(Join(HMsgFields(m), SPACE))
  {
    hide ValidUtf8, Split, Join, Decimal;
    DecimalIsPlain(m.headerBytes);
    DecimalIsPlain(m.totalBytes);
    FieldsComeBack(HMsgFields(m));
  }

  lemma ServerLineIsCrlfFree(json: Json, c: ServerCommand, order: seq<bytes>)
    requires WellFormedServer(json, c, order)
    ensures CrlfFree(ServerLine(c))
  {
    hide Split, Join, ValidUtf8, PrintBlock, WellFormedHeaders;
    match c
    case SMsg(m) => MsgFieldsComeBack(m);
    case SHMsg(m) => HMsgFieldsComeBack(m);
    case SErr(text) => QuotedIsCrlfFree(text);
    case _ =>
  }

  lemma QuotedIsCrlfFree(text: bytes)
    requires CrlfFree(text)
    ensures CrlfFree([QUOTE] + text + [QUOTE])
  {
    CrlfFreeAfterNoCr([QUOTE], text);
    CrlfFreeAcross([QUOTE] + text, QUOTE, []);
    assert [QUOTE] + text + [QUOTE] + [] == [QUOTE] + text + [QUOTE];
  }

  // What a MSG body is once its metadata and a second CRLF are there.
  lemma MsgMetadata(m: Msg, payload: bytes, rest: bytes)
    requires MsgTokens(m) && CrlfFree(payload)
    ensures var line := Join(MsgFields(m), SPACE);
            DecodeMsg(line + CRLF + (payload + CRLF + rest))
            == if |payload| == m.size then Advance(SMsg(m.(payload := payload)), |line| + |payload| + 4)
               else FatalError(BadMsg)
  {
    hide ValidUtf8, Split, Join, Decimal, CrlfFree, NextSlice, ParseUsize;
    MsgFieldsComeBack(m);
    DecimalIsPlain(m.size);
    ParseDecimal(m.size);
    var line := Join(MsgFields(m), SPACE);
    var body := line + CRLF + (payload + CRLF + rest);
    FirstSlice(line, payload + CRLF + rest);
    assert body == (line + CRLF) + payload + CRLF + rest;
    NextSliceOfTerminated(line + CRLF, payload, rest);
  }

  lemma ErrBody(text: bytes, rest: bytes)
    requires ValidUtf8(text) && CrlfFree(text)
    ensures DecodeErr([QUOTE] + text + [QUOTE] + CRLF + rest) == Advance(SErr(text), |text| + 4)
  {
    hide ValidUtf8;
    QuotedIsCrlfFree(text);
    var line := [QUOTE] + text + [QUOTE];
    FirstSlice(line, rest);
    assert line[1..|line| - 1] == text;
  }

  lemma HMsgMetadata(m: HMsg, order: seq<bytes>, tail: bytes)
    requires WellFormedHMsg(m, order)
    ensures var line := Join(HMsgFields(m), SPACE);
            var body := line + CRLF + tail;
            DecodeHMsg(body)
            == HMsgSlices(body, |line| + 2, m.subject, m.sid, m.replyTo, m.headerBytes, m.totalBytes)
  {
    hide ValidUtf8, Split, Join, Decimal, HMsgSlices, WellFormedHeaders, PrintBlock;
    HMsgFieldsComeBack(m);
    DecimalIsPlain(m.headerBytes);
    DecimalIsPlain(m.totalBytes);
    ParseDecimal(m.headerBytes);
    ParseDecimal(m.totalBytes);
    FirstSlice(Join(HMsgFields(m), SPACE), tail);
  }

  lemma HMsgComplete(m: HMsg, order: seq<bytes>, before: bytes, rest: bytes)
    requires WellFormedHMsg(m, order)
    ensures var body := before + PrintBlock(order, m.headers) + m.payload + CRLF + rest;
            HMsgSlices(body, |before|, m.subject, m.sid, m.replyTo, m.headerBytes, m.totalBytes)
            == Advance(SHMsg(m), |before| + m.totalBytes + 2)
  {
    hide ValidUtf8, PrintBlock, ParseHeaders;
    var block := PrintBlock(order, m.headers);
    var body := before + block + m.payload + CRLF + rest;
    assert body[|before|..|before| + |block|] == block;
    assert body[|before| + |block|..|before| + |block| + |m.payload|] == m.payload;
    HeaderBlockRoundTrip(order, m.headers);
  }

  lemma HMsgBody(m: HMsg, order: seq<bytes>, rest: bytes)
    requires WellFormedHMsg(m, order)
    ensures var line := Join(HMsgFields(m), SPACE);
            DecodeHMsg(line + CRLF + (PrintBlock(order, m.headers) + m.payload + CRLF + rest))
            == Advance(SHMsg(m), |line| + 2 + m.totalBytes + 2)
  {
    hide ValidUtf8, Join, HMsgSlices, DecodeHMsg, WellFormedHMsg, PrintBlock;
    var line := Join(HMsgFields(m), SPACE);
    var tail := PrintBlock(order, m.headers) + m.payload + CRLF + rest;
    HMsgMetadata(m, order, tail);
    HMsgComplete(m, order, line + CRLF, rest);
    assert line + CRLF + tail == (line + CRLF) + PrintBlock(order, m.headers) + m.payload + CRLF + rest;
  }

  lemma ServerBodyRoundTrip(json: Json, c: ServerCommand, order: seq<bytes>, rest: bytes)
    requires WellFormedServer(json, c, order)
    ensures ServerBodyOf(json, c, ServerLine(c) + CRLF + (ServerTail(c, order) + rest))
         == Advance(c, |ServerLine(c)| + 2 + |ServerTail(c, order)|)
  {
    hide DecodeHMsg, DecodeMsg, DecodeErr, PrintBlock, Join, ValidUtf8, WellFormedHeaders;
    var line := ServerLine(c);
    ServerLineIsCrlfFree(json, c, order);
    match c
    case SInfo(_) => FirstSlice(line, ServerTail(c, order) + rest);
    case SMsg(m) =>
      assert ServerTail(c, order) + rest == m.payload + CRLF + rest;
      MsgMetadata(m, m.payload, rest);
    case SHMsg(m) =>
      assert ServerTail(c, order) + rest == PrintBlock(order, m.headers) + m.payload + CRLF + rest;
      HMsgBody(m, order, rest);
    case SErr(text) =>
      assert [] + rest == rest;
      ErrBody(text, rest);
    case SPing => FirstSlice(line, ServerTail(c, order) + rest);
    case SPong => FirstSlice(line, ServerTail(c, order) + rest);
    case SOk => FirstSlice(line, ServerTail(c, order) + rest);
  }

  // A server command laid out as the protocol says, followed by any bytes, is
  // read back and consumed exactly.
  lemma ServerRoundTrip(json: Json, c: ServerCommand, order: seq<bytes>, rest: bytes)
    requires WellFormedServer(json, c, order) && ServerLineFits(c)
    ensures Decode(ServerTable(json), Layout(c, order) + rest) == Frame(c, |Layout(c, order)|)
  {
    hide ServerBodyOf, ServerTable, Decode, WellFormedServer, ServerVerb, ServerLine, ServerTail;
    var line, tail := ServerLine(c), ServerTail(c, order) + rest;
    ServerLineIsCrlfFree(json, c, order);
    ServerDecodeLine(json, c, ServerVerb(c), line, tail);
    ServerBodyRoundTrip(json, c, order, rest);
    assert Layout(c, order) + rest == ServerVerb(c) + line + CRLF + tail;
  }

  // ----------------------------------------------------------- half a command

  lemma HalfMsgBody(m: Msg, j: nat)
    requires WellFormedMsg(m) && j < |m.payload| + 2
    ensures DecodeMsg(Join(MsgFields(m), SPACE) + CRLF + (m.payload + CRLF)[..j]) == FrameTooShort
  {
    hide ValidUtf8, Split, Join, Decimal;
    MsgFieldsComeBack(m);
    var line := Join(MsgFields(m), SPACE);
    var half := (m.payload + CRLF)[..j];
    var body := line + CRLF + half;
    FirstSlice(line, half);
    CrlfFreeStrictPrefix(m.payload, j);
    assert body[|line| + 2..] == half;
  }

  lemma CutInServerTail(c: ServerCommand, order: seq<bytes>, k: nat)
    requires |ServerVerb(c)| + |ServerLine(c)| + 2 <= k <= |Layout(c, order)|
    ensures Layout(c, order)[..k]
         == ServerVerb(c) + ServerLine(c) + CRLF
            + ServerTail(c, order)[..k - (|ServerVerb(c)| + |ServerLine(c)| + 2)]
  {
    var head := ServerVerb(c) + ServerLine(c) + CRLF;
    assert Layout(c, order) == head + ServerTail(c, order);
  }

  // Every strict prefix of a well-formed command but HMSG is waited for.
  lemma ServerWaitingIsSafe(json: Json, c: ServerCommand, order: seq<bytes>, k: nat)
    requires WellFormedServer(json, c, order) && ServerLineFits(c) && !c.SHMsg?
    requires k < |Layout(c, order)|
    ensures Decode(ServerTable(json), Layout(c, order)[..k]) == NeedMore
  {
    hide ServerTable, Decode, DecodeMsg, WellFormedMsg, Join, ServerVerb;
    var line := ServerLine(c);
    ServerLineIsCrlfFree(json, c, order);
    ServerVerbHasNoCr(c);
    var head := ServerVerb(c) + line + CRLF;
    if k < |head| {
      NoLineYet(ServerTable(json), ServerVerb(c), line, k);
      assert Layout(c, order)[..k] == head[..k];
    } else {
      assert c.SMsg?;
      CutInServerTail(c, order, k);
      ServerDecodeLine(json, c, ServerVerb(c), line, ServerTail(c, order)[..k - |head|]);
      HalfMsgBody(c.msg, k - |head|);
    }
  }

  lemma HalfHMsgBlocks(m: HMsg, order: seq<bytes>, before: bytes, j: nat)
    requires WellFormedHMsg(m, order) && j < m.totalBytes + 2
    ensures var body := before + (PrintBlock(order, m.headers) + m.payload + CRLF)[..j];
            var r := HMsgSlices(body, |before|, m.subject, m.sid, m.replyTo, m.headerBytes, m.totalBytes);
            if |body| < m.totalBytes then r == FrameTooShort
            else r == BodyPanic(SliceOutOfRange) || (r.Advance? && r.consume > |body|)
  {
    hide ValidUtf8, PrintBlock, ParseHeaders;
    var block := PrintBlock(order, m.headers);
    HeaderBlockRoundTrip(order, m.headers);
    if j >= |block| {
      CutKeepsParts(before, block, m.payload, CRLF, j);
    }
  }

  // A half-received HMSG is waited for exactly as long as its first line is
  // incomplete or fewer than `total_bytes` bytes follow the verb; every longer
  // strict prefix makes the decoder panic.
  lemma HalfHMsgExactly(json: Json, m: HMsg, order: seq<bytes>, k: nat)
    requires WellFormedHMsg(m, order) && ServerLineFits(SHMsg(m))
    requires k < |Layout(SHMsg(m), order)|
    ensures var o := Decode(ServerTable(json), Layout(SHMsg(m), order)[..k]);
            var lineEnd := |HMSG| + |ServerLine(SHMsg(m))| + 2;
            if k < lineEnd || k < |HMSG| + m.totalBytes then o == NeedMore
            else o == Panic(SliceOutOfRange) || o == Panic(AdvancePastEnd)
  {
    hide ServerTable, Decode, DecodeHMsg, HMsgSlices, Join, PrintBlock, ValidUtf8, WellFormedHeaders;
    var c := SHMsg(m);
    var line := ServerLine(c);
    ServerLineIsCrlfFree(json, c, order);
    ServerVerbHasNoCr(c);
    var head := ServerVerb(c) + line + CRLF;
    if k < |head| {
      NoLineYet(ServerTable(json), ServerVerb(c), line, k);
      assert Layout(c, order)[..k] == head[..k];
    } else {
      var half := ServerTail(c, order)[..k - |head|];
      CutInServerTail(c, order, k);
      ServerDecodeLine(json, c, ServerVerb(c), line, half);
      HMsgMetadata(m, order, half);
      HalfHMsgBlocks(m, order, line + CRLF, k - |head|);
    }
  }

  // ------------------------------------------------------- streams and cuts

  function ServerPatience(c: ServerCommand, order: seq<bytes>): nat {
    if !c.SHMsg? then |Layout(c, order)|
    else
      var lineEnd := |HMSG| + |ServerLine(c)| + 2;
      var counted := |HMSG| + c.hmsg.totalBytes;
      if lineEnd < counted then counted else lineEnd
  }

  function ServerPiece(c: ServerCommand, order: seq<bytes>): Piece<ServerCommand> {
    Piece(c, Layout(c, order), ServerPatience(c, order))
  }

  lemma ServerPieceBehaves(json: Json, c: ServerCommand, order: seq<bytes>)
    requires WellFormedServer(json, c, order) && ServerLineFits(c)
    ensures Behaves(ServerTable(json), ServerPiece(c, order))
  {
    hide Decode, Layout, ServerTable, WellFormedMsg, WellFormedHMsg, ServerLineFits, ServerLine;
    var codec := ServerTable(json);
    var text := Layout(c, order);
    forall rest
      ensures Decode(codec, text + rest) == Frame(c, |text|)
    {
      ServerRoundTrip(json, c, order, rest);
    }
    forall j: nat | j < |text|
      ensures if j < ServerPatience(c, order) then Decode(codec, text[..j]) == NeedMore
              else TooEarly(Decode(codec, text[..j]))
    {
      if c.SHMsg? {
        HalfHMsgExactly(json, c.hmsg, order, j);
      } else {
        ServerWaitingIsSafe(json, c, order, j);
      }
    }
  }

  function ServerPieces(cs: seq<ServerCommand>, orders: seq<seq<bytes>>): (ps: seq<Piece<ServerCommand>>)
    requires |cs| == |orders|
    ensures |ps| == |cs| && forall i :: 0 <= i < |ps| ==> ps[i] == ServerPiece(cs[i], orders[i])
  {
    if cs == [] then [] else [ServerPiece(cs[0], orders[0])] + ServerPieces(cs[1..], orders[1..])
  }

  // The bytes a server sends for these commands.
  function ServerBytes(cs: seq<ServerCommand>, orders: seq<seq<bytes>>): bytes
    requires |cs| == |orders|
  {
    if cs == [] then [] else Layout(cs[0], orders[0]) + ServerBytes(cs[1..], orders[1..])
  }

  predicate SafeServerCut(cs: seq<ServerCommand>, orders: seq<seq<bytes>>, k: nat)
    requires |cs| == |orders|
  {
    SafeCut(ServerPieces(cs, orders), k)
  }

  ghost predicate ServerStreamable(json: Json, cs: seq<ServerCommand>, orders: seq<seq<bytes>>)
    requires |cs| == |orders|
  {
    forall i :: 0 <= i < |cs| ==> WellFormedServer(json, cs[i], orders[i]) && ServerLineFits(cs[i])
  }

  lemma {:induction false} ServerTexts(cs: seq<ServerCommand>, orders: seq<seq<bytes>>)
    requires |cs| == |orders|
    ensures Texts(ServerPieces(cs, orders)) == ServerBytes(cs, orders)
    ensures Frames(ServerPieces(cs, orders)) == cs
    decreases |cs|
  {
    hide Layout, ServerPatience;
    if cs != [] {
      ServerTexts(cs[1..], orders[1..]);
      assert ServerPieces(cs, orders)[1..] == ServerPieces(cs[1..], orders[1..]);
    }
  }

  lemma ServerPiecesBehave(json: Json, cs: seq<ServerCommand>, orders: seq<seq<bytes>>)
    requires |cs| == |orders| && ServerStreamable(json, cs, orders)
    ensures AllBehave(ServerTable(json), ServerPieces(cs, orders))
  {
    hide ServerTable, WellFormedServer, ServerLineFits, Behaves, ServerPiece;
    forall i | 0 <= i < |cs|
      ensures Behaves(ServerTable(json), ServerPieces(cs, orders)[i])
    {
      ServerPieceBehaves(json, cs[i], orders[i]);
    }
  }

  // Commands sent back to back come back one by one.
  lemma ServerStreamRoundTrip(json: Json, cs: seq<ServerCommand>, orders: seq<seq<bytes>>)
    requires |cs| == |orders| && ServerStreamable(json, cs, orders)
    ensures Sound(ServerTable(json))
    ensures DecodeAll(ServerTable(json), ServerBytes(cs, orders)) == Stream(cs, Waiting, [])
  {
    hide ServerTable, ServerStreamable, AllBehave;
    ServerTableIsSound(json);
    ServerPiecesBehave(json, cs, orders);
    ServerTexts(cs, orders);
    WholeDecodes(ServerTable(json), ServerPieces(cs, orders));
  }

  // For every stream of well-formed server commands and every cutting of it:
  // the client reads exactly these commands if and only if no cut lies inside
  // an HMSG behind its first line and behind `total_bytes` bytes from the verb.
  lemma ServerCutsExactly(json: Json, cs: seq<ServerCommand>, orders: seq<seq<bytes>>, chunks: seq<bytes>)
    requires |cs| == |orders| && ServerStreamable(json, cs, orders)
    requires Concat(chunks) == ServerBytes(cs, orders)
    ensures Sound(ServerTable(json))
    ensures FeedAll(ServerTable(json), chunks) == Stream(cs, Waiting, []) <==>
            forall i: nat :: i <= |chunks| ==> SafeServerCut(cs, orders, |Concat(chunks[..i])|)
  {
    hide ServerTable, ServerStreamable, AllBehave, FeedAll;
    ServerTableIsSound(json);
    ServerPiecesBehave(json, cs, orders);
    ServerTexts(cs, orders);
    CutsExactly(ServerTable(json), ServerPieces(cs, orders), chunks);
  }

  // "HMSG A 1 12 12" with no header and no payload: read whole, but a panic
  // when only the first nineteen of its thirty bytes are there.
  lemma HalfHMsgExample(json: Json)
    ensures var m := HMsg([0x41], [0x31], None, 12, 12, map[], []);
            var frame := Layout(SHMsg(m), []);
            && |frame| == 30
            && Decode(ServerTable(json), frame) == Frame(SHMsg(m), 30)
            && TooEarly(Decode(ServerTable(json), frame[..19]))
  {
    hide Decode, Layout, ServerTable, ServerLine;
    var m := HMsg([0x41], [0x31], None, 12, 12, map[], []);
    ExampleHMsgIsWellFormed(m);
    HalfHMsgExactly(json, m, [], 19);
    ServerRoundTrip(json, SHMsg(m), [], []);
    assert Layout(SHMsg(m), []) + [] == Layout(SHMsg(m), []);
  }

  lemma ExampleHMsgIsWellFormed(m: HMsg)
    requires m == HMsg([0x41], [0x31], None, 12, 12, map[], [])
    ensures WellFormedHMsg(m, []) && ServerLineFits(SHMsg(m))
    ensures |ServerLine(SHMsg(m))| == 9 && |Layout(SHMsg(m), [])| == 30
  {
    AsciiIsUtf8(m.subject);
    AsciiIsUtf8(m.sid);
    assert Decimal(1) == [0x31];
    assert Decimal(12) == [0x31, 0x32];
    assert HMsgFields(m) == [m.subject, m.sid, Decimal(12), Decimal(12)];
    JoinFour(m.subject, m.sid, Decimal(12), Decimal(12), SPACE);
    assert Flatten([], m.headers) == [];
    assert |PrintBlock([], m.headers)| == 12;
  }
}
