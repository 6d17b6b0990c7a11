// The dispatcher: find the first line, match its prefix against a table of
// body decoders, consume exactly one frame.
module Decoder {
  import opened Bodies
  import opened Bytes
  import opened Commands
  import opened Wrappers

  const BUFSIZE_LIMIT: nat := 0xFFFF

  datatype Entry<!T, !E> = Entry(prefix: bytes, decodeBody: bytes -> BodyResult<T, E>)

  datatype Codec<!T, !E> = Codec(
    table: seq<Entry<T, E>>,
    exceedsSoftLength: E,
    unknownCommand: E)

  // One call of `decode`. `consumed` bytes leave the front of the buffer.
  datatype Outcome<+T, +E> =
    | Frame(frame: T, consumed: nat)
    | NeedMore
    | Fail(error: E, consumed: nat)
    | Panic(cause: PanicCause)

  // ------------------------------------------------------------- the tables

  const PING: bytes := [0x50, 0x49, 0x4E, 0x47]                                 // "PING"
  const PONG: bytes := [0x50, 0x4F, 0x4E, 0x47]                                 // "PONG"
  const HPUB: bytes := [0x48, 0x50, 0x55, 0x42, 0x20]                           // "HPUB "
  const PUB: bytes := [0x50, 0x55, 0x42, 0x20]                                  // "PUB "
  const SUB: bytes := [0x53, 0x55, 0x42, 0x20]                                  // "SUB "
  const UNSUB: bytes := [0x55, 0x4E, 0x53, 0x55, 0x42, 0x20]                    // "UNSUB "
  const CONNECT: bytes := [0x43, 0x4F, 0x4E, 0x4E, 0x45, 0x43, 0x54, 0x20]      // "CONNECT "
  const HMSG: bytes := [0x48, 0x4D, 0x53, 0x47, 0x20]                           // "HMSG "
  const MSG: bytes := [0x4D, 0x53, 0x47, 0x20]                                  // "MSG "
  const OK: bytes := [0x2B, 0x4F, 0x4B]                                         // "+OK"
  const ERR: bytes := [0x2D, 0x45, 0x52, 0x52, 0x20]                            // "-ERR "
  const INFO: bytes := [0x49, 0x4E, 0x46, 0x4F, 0x20]                           // "INFO "

  type ClientCodec = Codec<ClientCommand, ClientError>
  type ServerCodec = Codec<ServerCommand, ServerError>

  function ClientTable(json: Json): ClientCodec {
    Codec([
            Entry(PING, (b: bytes) => DecodeBare(CPing, b)),
            Entry(PONG, (b: bytes) => DecodeBare(CPong, b)),
            Entry(HPUB, (b: bytes) => DecodeHPub(b)),
            Entry(PUB, (b: bytes) => DecodePub(b)),
            Entry(SUB, (b: bytes) => DecodeSub(b)),
            Entry(UNSUB, (b: bytes) => DecodeUnsub(b)),
            Entry(CONNECT, (b: bytes) => DecodeConnect(json, b))
          ], ExceedsSoftLength, UnknownCommand)
  }

  function ServerTable(json: Json): ServerCodec {
    Codec([
            Entry(PING, (b: bytes) => DecodeBare(SPing, b)),
            Entry(PONG, (b: bytes) => DecodeBare(SPong, b)),
            Entry(HMSG, (b: bytes) => DecodeHMsg(b)),
            Entry(MSG, (b: bytes) => DecodeMsg(b)),
            Entry(OK, (b: bytes) => DecodeBare(SOk, b)),
            Entry(ERR, (b: bytes) => DecodeErr(b)),
            Entry(INFO, (b: bytes) => DecodeInfo(json, b))
          ], ServerExceedsSoftLength, ServerUnknownCommand)
  }

  // --------------------------------------------------------- one decode call

  predicate HasPrefix(src: bytes, prefix: bytes) {
    |prefix| <= |src| && EqIgnoreCase(src[..|prefix|], prefix)
  }

  function Dispatch<T, E>(codec: Codec<T, E>, src: bytes, newline: nat, i: nat): Outcome<T, E>
    requires i <= |codec.table|
    decreases |codec.table| - i
  {
    if i == |codec.table| then Fail(codec.unknownCommand, newline + 1)
    else
      var entry := codec.table[i];
      if |src| < |entry.prefix| then NeedMore
      else if !HasPrefix(src, entry.prefix) then Dispatch(codec, src, newline, i + 1)
      else Settle(entry.decodeBody(src[|entry.prefix|..]), |entry.prefix|, |src|)
  }

  function Settle<T, E>(r: BodyResult<T, E>, prefix: nat, length: nat): Outcome<T, E> {
    match r
    case Advance(frame, consume) =>
      if consume + prefix <= length then Frame(frame, consume + prefix) else Panic(AdvancePastEnd)
    case FatalError(e) => Fail(e, 0)
    case FrameTooShort => NeedMore
    case BodyPanic(cause) => Panic(cause)
  }

  function Window(src: bytes): nat {
    if |src| < BUFSIZE_LIMIT then |src| else BUFSIZE_LIMIT
  }

  function Decode<T, E>(codec: Codec<T, E>, src: bytes): Outcome<T, E> {
    var newline := FindCrlf(src[..Window(src)], 0);
    if newline == Window(src) then
      if |src| < BUFSIZE_LIMIT then NeedMore else Fail(codec.exceedsSoftLength, 0)
    else Dispatch(codec, src, newline, 0)
  }

  // The buffer the code decodes from and advances in place.
  class BytesMut {
    var data: bytes

    constructor (data: bytes)
      ensures this.data == data
    {
      this.data := data;
    }

    method Advance(count: nat)
      requires count <= |data|
      modifies this
      ensures data == old(data)[count..]
    {
      data := data[count..];
    }

    method Put(more: bytes)
      modifies this
      ensures data == old(data) + more
    {
      data := data + more;
    }
  }

  function Consumed<T, E>(o: Outcome<T, E>): nat {
    match o
    case Frame(_, n) => n
    case Fail(_, n) => n
    case NeedMore => 0
    case Panic(_) => 0
  }

  lemma {:induction false} DispatchConsumesBuffered<T, E>(codec: Codec<T, E>, src: bytes, newline: nat, i: nat)
    requires i <= |codec.table| && newline < |src|
    ensures Consumed(Dispatch(codec, src, newline, i)) <= |src|
    decreases |codec.table| - i
  {
    if i < |codec.table| {
      DispatchConsumesBuffered(codec, src, newline, i + 1);
    }
  }

  // A call never takes more than it was given.
  lemma DecodeConsumesBuffered<T, E>(codec: Codec<T, E>, src: bytes)
    ensures Consumed(Decode(codec, src)) <= |src|
  {
    var newline := FindCrlf(src[..Window(src)], 0);
    if newline < Window(src) {
      DispatchConsumesBuffered(codec, src, newline, 0);
    }
  }

  // The loop over the table. A panic is reported as an outcome; the buffer it
  // would leave behind cannot be observed.
  method Decoding<T, E>(src: BytesMut, codec: Codec<T, E>) returns (o: Outcome<T, E>)
    modifies src
    ensures o == Decode(codec, old(src.data))
    ensures match o
            case Frame(_, n) => n <= |old(src.data)| && src.data == old(src.data)[n..]
            case Fail(_, n) => n <= |old(src.data)| && src.data == old(src.data)[n..]
            case NeedMore => src.data == old(src.data)
            case Panic(_) => src.data == old(src.data)
  {
    DecodeConsumesBuffered(codec, src.data);
    var clamped := if |src.data| < BUFSIZE_LIMIT then |src.data| else BUFSIZE_LIMIT;
    var newline := MemmemCrlf(src.data[..clamped], 0);
    if newline == clamped {
      if |src.data| < BUFSIZE_LIMIT {
        return NeedMore;
      } else {
        return Fail(codec.exceedsSoftLength, 0);
      }
    }
    var i := 0;
    while i < |codec.table|
      invariant i <= |codec.table|
      invariant src.data == old(src.data)
      invariant Dispatch(codec, src.data, newline, i) == Decode(codec, old(src.data))
    {
      var prefix := codec.table[i].prefix;
      if |src.data| < |prefix| {
        return NeedMore;
      }
      if EqIgnoreCase(src.data[..|prefix|], prefix) {
        match codec.table[i].decodeBody(src.data[|prefix|..])
        case Advance(frame, consume) =>
          if consume + |prefix| <= |src.data| {
            src.Advance(consume + |prefix|);
            return Frame(frame, consume + |prefix|);
          } else {
            return Panic(AdvancePastEnd);
          }
        case FatalError(e) => return Fail(e, 0);
        case FrameTooShort => return NeedMore;
        case BodyPanic(cause) => return Panic(cause);
      }
      i := i + 1;
    }
    src.Advance(newline + 1);
    o := Fail(codec.unknownCommand, newline + 1);
  }

  // ------------------------------------------------- what makes a table sound

  ghost predicate SoundEntry<T, E>(e: Entry<T, E>) {
    && |e.prefix| >= 3
    && CR !in e.prefix
    && Stable(e.decodeBody)
    && Progressive(e.decodeBody)
  }

  ghost predicate Sound<T, E>(codec: Codec<T, E>) {
    forall i :: 0 <= i < |codec.table| ==> SoundEntry(codec.table[i])
  }

  // A matched prefix ends before the first CRLF, so the body decoder always
  // finds one.
  lemma BodyHasCrlf(src: bytes, prefix: bytes, newline: nat)
    requires CrlfAt(src, newline) && CR !in prefix && HasPrefix(src, prefix)
    ensures |prefix| <= newline
    ensures NextSlice(src[|prefix|..], 0).Some?
  {
    forall i | 0 <= i < |prefix|
      ensures src[i] != CR
    {
      assert Lower(src[..|prefix|][i]) == Lower(prefix[i]);
      assert prefix[i] in prefix;
    }
    var body := src[|prefix|..];
    assert CrlfAt(body, newline - |prefix|);
    assert body[0..] == body;
  }

  // A result that later bytes cannot change. A slice or an advance beyond the
  // buffer is the one panic that is not.
  predicate Final<T, E>(o: Outcome<T, E>) {
    o.Frame? || o.Fail? || (o.Panic? && o.cause == InvalidUtf8)
  }

  lemma HasPrefixIsStable(src: bytes, more: bytes, prefix: bytes)
    requires |prefix| <= |src|
    ensures HasPrefix(src + more, prefix) == HasPrefix(src, prefix)
  {
    assert (src + more)[..|prefix|] == src[..|prefix|];
  }

  lemma EntryIsStable<T, E>(e: Entry<T, E>, src: bytes, more: bytes, newline: nat)
    requires SoundEntry(e) && HasPrefix(src, e.prefix) && CrlfAt(src, newline)
    requires Final(Settle(e.decodeBody(src[|e.prefix|..]), |e.prefix|, |src|))
    ensures Settle(e.decodeBody((src + more)[|e.prefix|..]), |e.prefix|, |src + more|)
         == Settle(e.decodeBody(src[|e.prefix|..]), |e.prefix|, |src|)
  {
    BodyHasCrlf(src, e.prefix, newline);
    var body := src[|e.prefix|..];
    assert (src + more)[|e.prefix|..] == body + more;
    assert Settled(e.decodeBody(body));
  }

  lemma {:induction false} DispatchIsStable<T, E>(codec: Codec<T, E>, src: bytes, more: bytes, newline: nat, i: nat)
    requires Sound(codec) && i <= |codec.table| && CrlfAt(src, newline)
    requires Final(Dispatch(codec, src, newline, i))
    ensures Dispatch(codec, src + more, newline, i) == Dispatch(codec, src, newline, i)
    decreases |codec.table| - i
  {
    if i < |codec.table| {
      var entry := codec.table[i];
      assert SoundEntry(entry);
      HasPrefixIsStable(src, more, entry.prefix);
      if HasPrefix(src, entry.prefix) {
        EntryIsStable(entry, src, more, newline);
      } else {
        DispatchIsStable(codec, src, more, newline, i + 1);
      }
    }
  }

  lemma WindowIsStable(src: bytes, more: bytes)
    requires FindCrlf(src[..Window(src)], 0) < Window(src)
    ensures FindCrlf((src + more)[..Window(src + more)], 0) == FindCrlf(src[..Window(src)], 0)
  {
    var k := FindCrlf(src[..Window(src)], 0);
    var now := (src + more)[..Window(src + more)];
    assert CrlfAt(now, k);
    forall i | 0 <= i < k
      ensures !CrlfAt(now, i)
    {
      assert !CrlfAt(src[..Window(src)], i);
    }
    FirstCrlfIsUnique(now, 0, k);
  }

  // Every final outcome survives the arrival of more bytes, with the same frame
  // or error and the same number of consumed bytes.
  lemma DecodeIsStable<T, E>(codec: Codec<T, E>, src: bytes, more: bytes)
    requires Sound(codec) && Final(Decode(codec, src))
    ensures Decode(codec, src + more) == Decode(codec, src)
  {
    var newline := FindCrlf(src[..Window(src)], 0);
    if newline < Window(src) {
      WindowIsStable(src, more);
      assert CrlfAt(src[..Window(src)], newline);
      DispatchIsStable(codec, src, more, newline, 0);
    } else {
      assert (src + more)[..Window(src + more)] == src[..Window(src)];
    }
  }

  lemma {:induction false} DispatchProgresses<T, E>(codec: Codec<T, E>, src: bytes, newline: nat, i: nat)
    requires Sound(codec) && i <= |codec.table|
    requires Dispatch(codec, src, newline, i).Frame?
    ensures 5 <= Dispatch(codec, src, newline, i).consumed <= |src|
    decreases |codec.table| - i
  {
    if i < |codec.table| {
      var entry := codec.table[i];
      assert SoundEntry(entry);
      if !HasPrefix(src, entry.prefix) {
        DispatchProgresses(codec, src, newline, i + 1);
      }
    }
  }

  // A frame costs its prefix and at least one CRLF.
  lemma DecodeProgresses<T, E>(codec: Codec<T, E>, src: bytes)
    requires Sound(codec) && Decode(codec, src).Frame?
    ensures 5 <= Decode(codec, src).consumed <= |src|
  {
    DispatchProgresses(codec, src, FindCrlf(src[..Window(src)], 0), 0);
  }

  // ------------------------------------------------- both tables are sound

  lemma ClientTableIsSound(json: Json)
    ensures Sound(ClientTable(json))
  {
    hide DecodeBare, DecodeHPub, DecodePub, DecodeSub, DecodeUnsub, DecodeConnect;
    var t := ClientTable(json).table;
    forall i, body, more | 0 <= i < |t| && NextSlice(body, 0).Some? && Settled(t[i].decodeBody(body))
      ensures t[i].decodeBody(body + more) == t[i].decodeBody(body)
    {
      if i == 2 { HPubIsStable(body, more); }
      if i == 3 { PubIsStable(body, more); }
      BareIsStable<ClientCommand, ClientError>(CPing, body, more);
      BareIsStable<ClientCommand, ClientError>(CPong, body, more);
      SubIsStable(body, more);
      UnsubIsStable(body, more);
      ConnectIsStable(json, body, more);
    }
    forall i, body | 0 <= i < |t| && t[i].decodeBody(body).Advance?
      ensures t[i].decodeBody(body).consume >= 2
    {
      ClientBodiesProgress(json, body);
    }
  }

  lemma ServerTableIsSound(json: Json)
    ensures Sound(ServerTable(json))
  {
    hide DecodeBare, DecodeHMsg, DecodeMsg, DecodeErr, DecodeInfo;
    var t := ServerTable(json).table;
    forall i, body, more | 0 <= i < |t| && NextSlice(body, 0).Some? && Settled(t[i].decodeBody(body))
      ensures t[i].decodeBody(body + more) == t[i].decodeBody(body)
    {
      if i == 2 { HMsgIsStable(body, more); }
      if i == 3 { MsgIsStable(body, more); }
      BareIsStable<ServerCommand, ServerError>(SPing, body, more);
      BareIsStable<ServerCommand, ServerError>(SPong, body, more);
      BareIsStable<ServerCommand, ServerError>(SOk, body, more);
      ErrIsStable(body, more);
      InfoIsStable(json, body, more);
    }
    forall i, body | 0 <= i < |t| && t[i].decodeBody(body).Advance?
      ensures t[i].decodeBody(body).consume >= 2
    {
      ServerBodiesProgress(json, body);
    }
  }

  // ----------------------------------------------------- who can panic at all

  lemma {:induction false} PanicHasPrefix<T, E>(codec: Codec<T, E>, src: bytes, newline: nat, i: nat, culprit: nat)
    requires i <= |codec.table| && culprit < |codec.table|
    requires forall j, body :: 0 <= j < |codec.table| && j != culprit ==>
                                 Contained(codec.table[j].decodeBody(body), |body|)
    requires Dispatch(codec, src, newline, i).Panic?
    ensures HasPrefix(src, codec.table[culprit].prefix)
    decreases |codec.table| - i
  {
    var entry := codec.table[i];
    if !HasPrefix(src, entry.prefix) {
      PanicHasPrefix(codec, src, newline, i + 1, culprit);
    } else {
      assert i != culprit ==> Contained(entry.decodeBody(src[|entry.prefix|..]), |src[|entry.prefix|..]|);
    }
  }

  // Of all client commands only HPUB can make the decoder panic ...
  lemma OnlyHPubPanics(json: Json, src: bytes)
    requires Decode(ClientTable(json), src).Panic?
    ensures HasPrefix(src, HPUB)
  {
    hide DecodeBare, DecodePub, DecodeSub, DecodeUnsub, DecodeConnect, DecodeHPub, Dispatch, HasPrefix;
    var codec := ClientTable(json);
    forall j, body | 0 <= j < |codec.table| && j != 2
      ensures Contained(codec.table[j].decodeBody(body), |body|)
    {
      ClientBodiesContained(json, body);
    }
    PanicHasPrefix(codec, src, FindCrlf(src[..Window(src)], 0), 0, 2);
  }

  // ... and of all server commands only HMSG.
  lemma OnlyHMsgPanics(json: Json, src: bytes)
    requires Decode(ServerTable(json), src).Panic?
    ensures HasPrefix(src, HMSG)
  {
    hide DecodeBare, DecodeMsg, DecodeErr, DecodeInfo, DecodeHMsg, Dispatch, HasPrefix;
    var codec := ServerTable(json);
    forall j, body | 0 <= j < |codec.table| && j != 2
      ensures Contained(codec.table[j].decodeBody(body), |body|)
    {
      ServerBodiesContained(json, body);
    }
    PanicHasPrefix(codec, src, FindCrlf(src[..Window(src)], 0), 0, 2);
  }

  // ------------------------------------------------------- which error, when

  predicate Matches<T, E>(codec: Codec<T, E>, src: bytes, j: nat) {
    j < |codec.table| && HasPrefix(src, codec.table[j].prefix)
  }

  // A failing dispatch has failed in a matching body decoder, or has compared
  // every prefix in vain.
  lemma {:induction false} DispatchFails<T, E>(codec: Codec<T, E>, src: bytes, newline: nat, i: nat)
    requires i <= |codec.table| && Dispatch(codec, src, newline, i).Fail?
    ensures var o := Dispatch(codec, src, newline, i);
            || (exists j: nat :: i <= j && Matches(codec, src, j) && o.consumed == 0
                                 && codec.table[j].decodeBody(src[|codec.table[j].prefix|..]) == FatalError(o.error))
            || (o == Fail(codec.unknownCommand, newline + 1)
                && forall j: nat :: i <= j < |codec.table| ==>
                     |codec.table[j].prefix| <= |src| && !Matches(codec, src, j))
    decreases |codec.table| - i
  {
    if i < |codec.table| {
      if HasPrefix(src, codec.table[i].prefix) {
        assert Matches(codec, src, i);
      } else {
        DispatchFails(codec, src, newline, i + 1);
        assert !Matches(codec, src, i);
      }
    }
  }

  lemma {:induction false} DispatchKnowsNone<T, E>(codec: Codec<T, E>, src: bytes, newline: nat, i: nat)
    requires i <= |codec.table|
    requires forall j: nat :: i <= j < |codec.table| ==> |codec.table[j].prefix| <= |src| && !Matches(codec, src, j)
    ensures Dispatch(codec, src, newline, i) == Fail(codec.unknownCommand, newline + 1)
    decreases |codec.table| - i
  {
    if i < |codec.table| {
      assert !Matches(codec, src, i);
      DispatchKnowsNone(codec, src, newline, i + 1);
    }
  }

  // What the dispatcher reports itself, no body decoder reports.
  ghost predicate OwnErrors<T(!new), E(!new)>(codec: Codec<T, E>) {
    && codec.unknownCommand != codec.exceedsSoftLength
    && forall j: nat, body: bytes :: j < |codec.table| && codec.table[j].decodeBody(body).FatalError? ==>
                                       codec.table[j].decodeBody(body).error !in
                                       {codec.unknownCommand, codec.exceedsSoftLength}
  }

  // Every prefix was compared, and none is there.
  ghost predicate NoneMatches<T(!new), E(!new)>(codec: Codec<T, E>, src: bytes) {
    forall j: nat :: j < |codec.table| ==> |codec.table[j].prefix| <= |src| && !Matches(codec, src, j)
  }

  // The two errors of the dispatcher. An unknown command is reported exactly
  // when there is a line and every prefix was compared in vain, and skipped up
  // to behind its CR; the soft limit exactly when 65535 buffered bytes hold no
  // line.
  lemma DispatchErrorsExactly<T(!new), E(!new)>(codec: Codec<T, E>, src: bytes)
    requires OwnErrors(codec)
    ensures var newline := FindCrlf(src[..Window(src)], 0);
            var o := Decode(codec, src);
            && (o.Fail? && o.error == codec.unknownCommand <==> newline < Window(src) && NoneMatches(codec, src))
            && (o.Fail? && o.error == codec.unknownCommand ==> o.consumed == newline + 1)
            && (o.Fail? && o.error == codec.exceedsSoftLength <==>
                newline == Window(src) && |src| >= BUFSIZE_LIMIT)
            && (o.Fail? && o.error != codec.unknownCommand ==> o.consumed == 0)
  {
    hide Dispatch, EqIgnoreCase;
    var newline := FindCrlf(src[..Window(src)], 0);
    if newline < Window(src) {
      if Dispatch(codec, src, newline, 0).Fail? {
        DispatchFails(codec, src, newline, 0);
      }
      if NoneMatches(codec, src) {
        DispatchKnowsNone(codec, src, newline, 0);
      }
    }
  }

  function OwnError(j: nat): ClientError {
    match j
    case 2 => BadHPub
    case 3 => BadPub
    case 4 => BadSub
    case 5 => BadUnsub
    case _ => BadConnect
  }

  lemma ClientEntryErrors(json: Json, body: bytes, j: nat)
    requires j < |ClientTable(json).table| && ClientTable(json).table[j].decodeBody(body).FatalError?
    ensures ClientTable(json).table[j].decodeBody(body).error == OwnError(j) && j >= 2
  {
    hide DecodeBare, DecodeHPub, DecodePub, DecodeSub, DecodeUnsub, DecodeConnect;
    ClientBodyErrors(json, body);
  }

  function OwnServerError(j: nat): ServerError {
    match j
    case 2 => BadHMsg
    case 3 => BadMsg
    case 5 => BadErr
    case _ => BadInfo
  }

  lemma ServerEntryErrors(json: Json, body: bytes, j: nat)
    requires j < |ServerTable(json).table| && ServerTable(json).table[j].decodeBody(body).FatalError?
    ensures ServerTable(json).table[j].decodeBody(body).error == OwnServerError(j) && j in {2, 3, 5, 6}
  {
    hide DecodeBare, DecodeHMsg, DecodeMsg, DecodeErr, DecodeInfo;
    ServerBodyErrors(json, body);
  }

  lemma ClientErrorsAreOwn(json: Json)
    ensures OwnErrors(ClientTable(json))
    ensures ClientTable(json).unknownCommand == UnknownCommand
    ensures ClientTable(json).exceedsSoftLength == ExceedsSoftLength
  {
    hide DecodeBare, DecodeHPub, DecodePub, DecodeSub, DecodeUnsub, DecodeConnect;
    var t := ClientTable(json).table;
    forall j: nat, body: bytes | j < |t| && t[j].decodeBody(body).FatalError?
      ensures t[j].decodeBody(body).error !in {UnknownCommand, ExceedsSoftLength}
    {
      ClientEntryErrors(json, body, j);
    }
  }

  lemma ServerErrorsAreOwn(json: Json)
    ensures OwnErrors(ServerTable(json))
    ensures ServerTable(json).unknownCommand == ServerUnknownCommand
    ensures ServerTable(json).exceedsSoftLength == ServerExceedsSoftLength
  {
    hide DecodeBare, DecodeHMsg, DecodeMsg, DecodeErr, DecodeInfo;
    var t := ServerTable(json).table;
    forall j: nat, body: bytes | j < |t| && t[j].decodeBody(body).FatalError?
      ensures t[j].decodeBody(body).error !in {ServerUnknownCommand, ServerExceedsSoftLength}
    {
      ServerEntryErrors(json, body, j);
    }
  }

  predicate ClientVerbAhead(src: bytes) {
    || HasPrefix(src, PING) || HasPrefix(src, PONG) || HasPrefix(src, HPUB) || HasPrefix(src, PUB)
    || HasPrefix(src, SUB) || HasPrefix(src, UNSUB) || HasPrefix(src, CONNECT)
  }

  predicate ServerVerbAhead(src: bytes) {
    || HasPrefix(src, PING) || HasPrefix(src, PONG) || HasPrefix(src, HMSG) || HasPrefix(src, MSG)
    || HasPrefix(src, OK) || HasPrefix(src, ERR) || HasPrefix(src, INFO)
  }

  lemma ClientVerbsAreTheTable(json: Json, src: bytes)
    ensures NoneMatches(ClientTable(json), src) <==> |src| >= 8 && !ClientVerbAhead(src)
  {
    hide HasPrefix;
    var t := ClientTable(json);
    assert |t.table| == 7;
    assert HasPrefix(src, PING) == Matches(t, src, 0);
    assert HasPrefix(src, PONG) == Matches(t, src, 1);
    assert HasPrefix(src, HPUB) == Matches(t, src, 2);
    assert HasPrefix(src, PUB) == Matches(t, src, 3);
    assert HasPrefix(src, SUB) == Matches(t, src, 4);
    assert HasPrefix(src, UNSUB) == Matches(t, src, 5);
    assert HasPrefix(src, CONNECT) == Matches(t, src, 6);
    assert |t.table[6].prefix| == 8;
  }

  lemma ServerVerbsAreTheTable(json: Json, src: bytes)
    ensures NoneMatches(ServerTable(json), src) <==> |src| >= 5 && !ServerVerbAhead(src)
  {
    hide HasPrefix;
    var t := ServerTable(json);
    assert |t.table| == 7;
    assert HasPrefix(src, PING) == Matches(t, src, 0);
    assert HasPrefix(src, PONG) == Matches(t, src, 1);
    assert HasPrefix(src, HMSG) == Matches(t, src, 2);
    assert HasPrefix(src, MSG) == Matches(t, src, 3);
    assert HasPrefix(src, OK) == Matches(t, src, 4);
    assert HasPrefix(src, ERR) == Matches(t, src, 5);
    assert HasPrefix(src, INFO) == Matches(t, src, 6);
    assert |t.table[2].prefix| == 5;
  }

  // A server reports UnknownCommand exactly when there is a line, at least as
  // many bytes as the longest client verb has, and no client verb.
  lemma UnknownCommandExactly(json: Json, src: bytes)
    ensures var newline := FindCrlf(src[..Window(src)], 0);
            var o := Decode(ClientTable(json), src);
            && (o.Fail? && o.error == UnknownCommand <==>
                newline < Window(src) && |src| >= 8 && !ClientVerbAhead(src))
            && (o.Fail? && o.error == UnknownCommand ==> o.consumed == newline + 1)
  {
    hide Decode, ClientVerbAhead, NoneMatches, ClientTable, OwnErrors;
    ClientErrorsAreOwn(json);
    ClientVerbsAreTheTable(json, src);
    DispatchErrorsExactly(ClientTable(json), src);
  }

  // A client likewise, with the server verbs.
  lemma ServerUnknownCommandExactly(json: Json, src: bytes)
    ensures var newline := FindCrlf(src[..Window(src)], 0);
            var o := Decode(ServerTable(json), src);
            && (o.Fail? && o.error == ServerUnknownCommand <==>
                newline < Window(src) && |src| >= 5 && !ServerVerbAhead(src))
            && (o.Fail? && o.error == ServerUnknownCommand ==> o.consumed == newline + 1)
  {
    hide Decode, ServerVerbAhead, NoneMatches, ServerTable, OwnErrors;
    ServerErrorsAreOwn(json);
    ServerVerbsAreTheTable(json, src);
    DispatchErrorsExactly(ServerTable(json), src);
  }
}
