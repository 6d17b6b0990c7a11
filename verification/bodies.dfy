// The body decoders: what follows the matched prefix, one function per verb.
module Bodies {
  import opened Bytes
  import opened Commands
  import opened Headers
  import opened Text
  import opened Wrappers

  // Where the code leaves the `Result` world. A slice or an advance beyond the
  // buffered bytes depends on how much has arrived; a failed UTF-8 `unwrap`
  // does not.
  datatype PanicCause = SliceOutOfRange | AdvancePastEnd | InvalidUtf8

  datatype BodyResult<+T, +E> =
    | Advance(frame: T, consume: nat)
    | FatalError(error: E)
    | FrameTooShort
    | BodyPanic(cause: PanicCause)

  // A result that more bytes cannot change.
  predicate Settled<T, E>(r: BodyResult<T, E>) {
    r.Advance? || r.FatalError? || (r.BodyPanic? && r.cause == InvalidUtf8)
  }

  predicate OptUtf8(s: Option<bytes>) {
    s.Some? ==> ValidUtf8(s.value)
  }

  // ------------------------------------------------------- client commands

  // PING, PONG and +OK: nothing may stand between the verb and its CRLF.
  function DecodeBare<T, E>(frame: T, body: bytes): BodyResult<T, E> {
    match NextSlice(body, 0)
    case None => FrameTooShort
    case Some((slice, end)) => if slice == [] then Advance(frame, end) else FrameTooShort
  }

  function DecodePub(body: bytes): BodyResult<ClientCommand, ClientError> {
    match NextSlice(body, 0)
    case None => FrameTooShort
    case Some((metadata, next)) =>
      var fields := Split(metadata, SPACE);
      if |fields| == 3 then PubPayload(body, next, fields[0], Some(fields[1]), fields[2])
      else if |fields| == 2 then PubPayload(body, next, fields[0], None, fields[1])
      else FatalError(BadPub)
  }

  function PubPayload(body: bytes, next: nat, subject: bytes, replyTo: Option<bytes>, size: bytes)
    : BodyResult<ClientCommand, ClientError>
    requires next <= |body|
  {
    if !ValidUtf8(size) || ParseUsize(size).None? then FatalError(BadPub)
    else
      var n := ParseUsize(size).value;
      match NextSlice(body, next)
      case None => FrameTooShort
      case Some((payload, end)) =>
        if !ValidUtf8(subject) || !OptUtf8(replyTo) || n != |payload| then FatalError(BadPub)
        else Advance(CPublish(Publish(subject, replyTo, n, payload)), end)
  }

  function DecodeSub(body: bytes): BodyResult<ClientCommand, ClientError> {
    match NextSlice(body, 0)
    case None => FrameTooShort
    case Some((message, end)) =>
      var fields := Split(message, SPACE);
      if |fields| != 2 && |fields| != 3 then FatalError(BadSub)
      else
        var queue := if |fields| == 3 then Some(fields[1]) else None;
        var sid := fields[|fields| - 1];
        if !ValidUtf8(fields[0]) || !OptUtf8(queue) || !ValidUtf8(sid) then FatalError(BadSub)
        else Advance(CSubscribe(Subscribe(fields[0], queue, sid)), end)
  }

  function DecodeUnsub(body: bytes): BodyResult<ClientCommand, ClientError> {
    match NextSlice(body, 0)
    case None => FrameTooShort
    case Some((metadata, end)) =>
      var fields := Split(metadata, SPACE);
      if |fields| == 2 then
        if !ValidUtf8(fields[0]) || !ValidUtf8(fields[1]) || ParseNonZero(fields[1]).None? then FatalError(BadUnsub)
        else Advance(CUnsubscribe(Unsubscribe(fields[0], ParseNonZero(fields[1]))), end)
      else if |fields| == 1 then
        if !ValidUtf8(metadata) then FatalError(BadUnsub)
        else Advance(CUnsubscribe(Unsubscribe(metadata, None)), end)
      else FatalError(BadUnsub)
  }

  function DecodeConnect(json: Json, body: bytes): BodyResult<ClientCommand, ClientError> {
    match NextSlice(body, 0)
    case None => FrameTooShort
    case Some((options, end)) =>
      match json.parseConnect(options)
      case None => FatalError(BadConnect)
      case Some(c) => Advance(CConnect(c), end)
  }

  function DecodeHPub(body: bytes): BodyResult<ClientCommand, ClientError> {
    match NextSlice(body, 0)
    case None => FrameTooShort
    case Some((metadata, next)) =>
      var fields := Split(metadata, SPACE);
      if |fields| == 4 then HPubBlocks(body, next, fields[0], Some(fields[1]), fields[2], fields[3])
      else if |fields| == 3 then HPubBlocks(body, next, fields[0], None, fields[1], fields[2])
      else FrameTooShort
  }

  // The sizes are checked against the whole body, not against what follows the
  // metadata, so the slices below may run past the end.
  function HPubBlocks(body: bytes, next: nat, subject: bytes, replyTo: Option<bytes>, header: bytes, total: bytes)
    : BodyResult<ClientCommand, ClientError>
    requires next <= |body|
  {
    if !ValidUtf8(header) || !ValidUtf8(total) then FatalError(BadHPub)
    else if ParseUsize(header).None? || ParseUsize(total).None? then FatalError(BadHPub)
    else HPubSlices(body, next, subject, replyTo, ParseUsize(header).value, ParseUsize(total).value)
  }

  function HPubSlices(body: bytes, next: nat, subject: bytes, replyTo: Option<bytes>, hb: nat, tb: nat)
    : BodyResult<ClientCommand, ClientError>
    requires next <= |body|
  {
    if tb < hb then FatalError(BadHPub)
    else if tb > |body| then FrameTooShort
    else if next + hb > |body| then BodyPanic(SliceOutOfRange)
    else
      var headers := body[next..next + hb];
      if next + tb <= |body| then HPubParts(subject, replyTo, headers, body[next + hb..next + tb], next + tb + 2)
      else if !ValidUtf8(headers) then BodyPanic(InvalidUtf8)
      else BodyPanic(SliceOutOfRange)
  }

  function HPubParts(subject: bytes, replyTo: Option<bytes>, headers: bytes, payload: bytes, consume: nat)
    : BodyResult<ClientCommand, ClientError>
  {
    if !ValidUtf8(headers) || !ValidUtf8(payload) then BodyPanic(InvalidUtf8)
    else if !ValidUtf8(subject) || !OptUtf8(replyTo) then FatalError(BadHPub)
    else
      match ParseHeaders(headers, |headers|)
      case Err(_) => FatalError(BadHPub)
      case Ok(m) =>
        Advance(CHPublish(HPublish(subject, replyTo, |headers|, |headers| + |payload|, m, payload)), consume)
  }

  // ------------------------------------------------------- server commands

  function DecodeMsg(body: bytes): BodyResult<ServerCommand, ServerError> {
    match NextSlice(body, 0)
    case None => FrameTooShort
    case Some((metadata, next)) =>
      match NextSlice(body, next)
      case None => FrameTooShort
      case Some((payload, end)) =>
        var fields := Split(metadata, SPACE);
        if |fields| != 3 && |fields| != 4 then FatalError(BadMsg)
        else
          var replyTo := if |fields| == 4 then Some(fields[2]) else None;
          var size := fields[|fields| - 1];
          if !ValidUtf8(fields[0]) || !ValidUtf8(fields[1]) || !ValidUtf8(size) then FatalError(BadMsg)
          else if ParseUsize(size).None? || !OptUtf8(replyTo) then FatalError(BadMsg)
          else if |payload| != ParseUsize(size).value then FatalError(BadMsg)
          else Advance(SMsg(Msg(fields[0], fields[1], replyTo, |payload|, payload)), end)
  }

  function DecodeHMsg(body: bytes): BodyResult<ServerCommand, ServerError> {
    match NextSlice(body, 0)
    case None => FrameTooShort
    case Some((metadata, next)) =>
      var fields := Split(metadata, SPACE);
      if |fields| == 5 then HMsgBlocks(body, next, fields[0], fields[1], Some(fields[2]), fields[3], fields[4])
      else if |fields| == 4 then HMsgBlocks(body, next, fields[0], fields[1], None, fields[2], fields[3])
      else FrameTooShort
  }

  function HMsgBlocks(
    body: bytes, next: nat, subject: bytes, sid: bytes, replyTo: Option<bytes>, header: bytes, total: bytes)
    : BodyResult<ServerCommand, ServerError>
    requires next <= |body|
  {
    if !ValidUtf8(header) || !ValidUtf8(total) then FatalError(BadHMsg)
    else if ParseUsize(header).None? || ParseUsize(total).None? then FatalError(BadHMsg)
    else HMsgSlices(body, next, subject, sid, replyTo, ParseUsize(header).value, ParseUsize(total).value)
  }

  function HMsgSlices(body: bytes, next: nat, subject: bytes, sid: bytes, replyTo: Option<bytes>, hb: nat, tb: nat)
    : BodyResult<ServerCommand, ServerError>
    requires next <= |body|
  {
    if tb < hb then FatalError(BadHMsg)
    else if tb > |body| then FrameTooShort
    else if next + tb > |body| then BodyPanic(SliceOutOfRange)
    else HMsgParts(subject, sid, replyTo, body[next..next + hb], body[next + hb..next + tb], next + tb + 2)
  }

  function HMsgParts(subject: bytes, sid: bytes, replyTo: Option<bytes>, headers: bytes, payload: bytes, consume: nat)
    : BodyResult<ServerCommand, ServerError>
  {
    if !ValidUtf8(subject) || !ValidUtf8(sid) || !OptUtf8(replyTo) then FatalError(BadHMsg)
    else
      match ParseHeaders(headers, |headers|)
      case Err(_) => FatalError(BadHMsg)
      case Ok(m) =>
        Advance(SHMsg(HMsg(subject, sid, replyTo, |headers|, |headers| + |payload|, m, payload)), consume)
  }

  const QUOTE: byte := 0x27

  function DecodeErr(body: bytes): BodyResult<ServerCommand, ServerError> {
    match NextSlice(body, 0)
    case None => FrameTooShort
    case Some((message, end)) =>
      if |message| < 2 || message[0] != QUOTE || message[|message| - 1] != QUOTE then FatalError(BadErr)
      else if !ValidUtf8(message[1..|message| - 1]) then FatalError(BadErr)
      else Advance(SErr(message[1..|message| - 1]), end)
  }

  // Unlike its siblings this decoder rejects a body without CRLF outright.
  function DecodeInfo(json: Json, body: bytes): BodyResult<ServerCommand, ServerError> {
    match NextSlice(body, 0)
    case None => FatalError(BadInfo)
    case Some((slice, end)) =>
      match json.parseInfo(slice)
      case None => FatalError(BadInfo)
      case Some(info) => Advance(SInfo(info), end)
  }

  // A body without CRLF: every decoder waits, but INFO's refuses it. The
  // dispatcher never asks (Decoder.BodyHasCrlf).
  lemma BodiesWithoutLine(json: Json, body: bytes)
    requires CrlfFree(body)
    ensures DecodeBare<ClientCommand, ClientError>(CPing, body) == FrameTooShort
    ensures DecodeBare<ServerCommand, ServerError>(SOk, body) == FrameTooShort
    ensures DecodePub(body) == FrameTooShort && DecodeHPub(body) == FrameTooShort
    ensures DecodeSub(body) == FrameTooShort && DecodeUnsub(body) == FrameTooShort
    ensures DecodeConnect(json, body) == FrameTooShort
    ensures DecodeMsg(body) == FrameTooShort && DecodeHMsg(body) == FrameTooShort
    ensures DecodeErr(body) == FrameTooShort
    ensures DecodeInfo(json, body) == FatalError(BadInfo)
  {
    assert body[0..] == body;
  }

  // ------------------------------------- what every body decoder keeps to

  // Once the first line is there, a settled result is final.
  ghost predicate Stable<T, E>(decode: bytes -> BodyResult<T, E>) {
    forall body, more ::
      NextSlice(body, 0).Some? && Settled(decode(body)) ==> decode(body + more) == decode(body)
  }

  // A frame is never free.
  ghost predicate Progressive<T, E>(decode: bytes -> BodyResult<T, E>) {
    forall body :: decode(body).Advance? ==> decode(body).consume >= 2
  }

  lemma BareIsStable<T, E>(frame: T, body: bytes, more: bytes)
    requires NextSlice(body, 0).Some?
    ensures DecodeBare<T, E>(frame, body + more) == DecodeBare<T, E>(frame, body)
  {
    NextSliceIsStable(body, more, 0);
  }

  lemma PubIsStable(body: bytes, more: bytes)
    requires NextSlice(body, 0).Some? && Settled(DecodePub(body))
    ensures DecodePub(body + more) == DecodePub(body)
  {
    NextSliceIsStable(body, more, 0);
    var next := NextSlice(body, 0).value.1;
    if NextSlice(body, next).Some? {
      NextSliceIsStable(body, more, next);
    }
  }

  lemma SubIsStable(body: bytes, more: bytes)
    requires NextSlice(body, 0).Some?
    ensures DecodeSub(body + more) == DecodeSub(body)
  {
    NextSliceIsStable(body, more, 0);
  }

  lemma UnsubIsStable(body: bytes, more: bytes)
    requires NextSlice(body, 0).Some?
    ensures DecodeUnsub(body + more) == DecodeUnsub(body)
  {
    NextSliceIsStable(body, more, 0);
  }

  lemma ConnectIsStable(json: Json, body: bytes, more: bytes)
    requires NextSlice(body, 0).Some?
    ensures DecodeConnect(json, body + more) == DecodeConnect(json, body)
  {
    NextSliceIsStable(body, more, 0);
  }

  lemma SliceIsStable(body: bytes, more: bytes, i: nat, j: nat)
    requires i <= j <= |body|
    ensures (body + more)[i..j] == body[i..j]
  {
  }

  lemma HPubSlicesAreStable(
    body: bytes, more: bytes, next: nat, subject: bytes, replyTo: Option<bytes>, hb: nat, tb: nat)
    requires next <= |body|
    requires Settled(HPubSlices(body, next, subject, replyTo, hb, tb))
    ensures HPubSlices(body + more, next, subject, replyTo, hb, tb) == HPubSlices(body, next, subject, replyTo, hb, tb)
  {
    hide HPubParts, ValidUtf8;
    if hb <= tb <= |body| {
      SliceIsStable(body, more, next, next + hb);
      if next + tb <= |body| {
        SliceIsStable(body, more, next + hb, next + tb);
      } else if next + tb <= |body + more| {
        var payload := (body + more)[next + hb..next + tb];
        InvalidHeadersPanic(subject, replyTo, body[next..next + hb], payload, next + tb + 2);
      }
    }
  }

  lemma InvalidHeadersPanic(subject: bytes, replyTo: Option<bytes>, headers: bytes, payload: bytes, consume: nat)
    requires !ValidUtf8(headers)
    ensures HPubParts(subject, replyTo, headers, payload, consume) == BodyPanic(InvalidUtf8)
  {
  }

  lemma HPubBlocksAreStable(
    body: bytes, more: bytes, next: nat, subject: bytes, replyTo: Option<bytes>, header: bytes, total: bytes)
    requires next <= |body|
    requires Settled(HPubBlocks(body, next, subject, replyTo, header, total))
    ensures HPubBlocks(body + more, next, subject, replyTo, header, total)
         == HPubBlocks(body, next, subject, replyTo, header, total)
  {
    if ParseUsize(header).Some? && ParseUsize(total).Some? && ValidUtf8(header) && ValidUtf8(total) {
      HPubSlicesAreStable(body, more, next, subject, replyTo, ParseUsize(header).value, ParseUsize(total).value);
    }
  }

  lemma HPubIsStable(body: bytes, more: bytes)
    requires NextSlice(body, 0).Some? && Settled(DecodeHPub(body))
    ensures DecodeHPub(body + more) == DecodeHPub(body)
  {
    NextSliceIsStable(body, more, 0);
    var (metadata, next) := NextSlice(body, 0).value;
    var fields := Split(metadata, SPACE);
    if |fields| == 4 {
      HPubBlocksAreStable(body, more, next, fields[0], Some(fields[1]), fields[2], fields[3]);
    } else if |fields| == 3 {
      HPubBlocksAreStable(body, more, next, fields[0], None, fields[1], fields[2]);
    }
  }

  lemma MsgIsStable(body: bytes, more: bytes)
    requires NextSlice(body, 0).Some? && Settled(DecodeMsg(body))
    ensures DecodeMsg(body + more) == DecodeMsg(body)
  {
    NextSliceIsStable(body, more, 0);
    var next := NextSlice(body, 0).value.1;
    NextSliceIsStable(body, more, next);
  }

  lemma HMsgSlicesAreStable(
    body: bytes, more: bytes, next: nat, subject: bytes, sid: bytes, replyTo: Option<bytes>, hb: nat, tb: nat)
    requires next <= |body|
    requires Settled(HMsgSlices(body, next, subject, sid, replyTo, hb, tb))
    ensures HMsgSlices(body + more, next, subject, sid, replyTo, hb, tb)
         == HMsgSlices(body, next, subject, sid, replyTo, hb, tb)
  {
    hide HMsgParts;
    if hb <= tb && next + tb <= |body| {
      SliceIsStable(body, more, next, next + hb);
      SliceIsStable(body, more, next + hb, next + tb);
    }
  }

  lemma HMsgBlocksAreStable(
    body: bytes, more: bytes, next: nat, subject: bytes, sid: bytes, replyTo: Option<bytes>,
    header: bytes, total: bytes)
    requires next <= |body|
    requires Settled(HMsgBlocks(body, next, subject, sid, replyTo, header, total))
    ensures HMsgBlocks(body + more, next, subject, sid, replyTo, header, total)
         == HMsgBlocks(body, next, subject, sid, replyTo, header, total)
  {
    if ParseUsize(header).Some? && ParseUsize(total).Some? && ValidUtf8(header) && ValidUtf8(total) {
      HMsgSlicesAreStable(body, more, next, subject, sid, replyTo, ParseUsize(header).value, ParseUsize(total).value);
    }
  }

  lemma HMsgIsStable(body: bytes, more: bytes)
    requires NextSlice(body, 0).Some? && Settled(DecodeHMsg(body))
    ensures DecodeHMsg(body + more) == DecodeHMsg(body)
  {
    NextSliceIsStable(body, more, 0);
    var (metadata, next) := NextSlice(body, 0).value;
    var fields := Split(metadata, SPACE);
    if |fields| == 5 {
      HMsgBlocksAreStable(body, more, next, fields[0], fields[1], Some(fields[2]), fields[3], fields[4]);
    } else if |fields| == 4 {
      HMsgBlocksAreStable(body, more, next, fields[0], fields[1], None, fields[2], fields[3]);
    }
  }

  lemma ErrIsStable(body: bytes, more: bytes)
    requires NextSlice(body, 0).Some?
    ensures DecodeErr(body + more) == DecodeErr(body)
  {
    NextSliceIsStable(body, more, 0);
  }

  lemma InfoIsStable(json: Json, body: bytes, more: bytes)
    requires NextSlice(body, 0).Some?
    ensures DecodeInfo(json, body + more) == DecodeInfo(json, body)
  {
    NextSliceIsStable(body, more, 0);
  }

  predicate Costs<T, E>(r: BodyResult<T, E>) {
    r.Advance? ==> r.consume >= 2
  }

  lemma HPubCosts(body: bytes)
    ensures Costs(DecodeHPub(body))
  {
    hide ValidUtf8, ParseHeaders, ParseUsize;
  }

  lemma HMsgCosts(body: bytes)
    ensures Costs(DecodeHMsg(body))
  {
    hide ValidUtf8, ParseHeaders, ParseUsize;
  }

  lemma ClientBodiesProgress(json: Json, body: bytes)
    ensures Costs(DecodeBare<ClientCommand, ClientError>(CPing, body))
    ensures Costs(DecodeBare<ClientCommand, ClientError>(CPong, body))
    ensures Costs(DecodeHPub(body))
    ensures Costs(DecodePub(body))
    ensures Costs(DecodeSub(body))
    ensures Costs(DecodeUnsub(body))
    ensures Costs(DecodeConnect(json, body))
  {
    hide ValidUtf8, ParseUsize, DecodeHPub;
    HPubCosts(body);
  }

  lemma ServerBodiesProgress(json: Json, body: bytes)
    ensures Costs(DecodeBare<ServerCommand, ServerError>(SPing, body))
    ensures Costs(DecodeBare<ServerCommand, ServerError>(SPong, body))
    ensures Costs(DecodeHMsg(body))
    ensures Costs(DecodeMsg(body))
    ensures Costs(DecodeBare<ServerCommand, ServerError>(SOk, body))
    ensures Costs(DecodeErr(body))
    ensures Costs(DecodeInfo(json, body))
  {
    hide ValidUtf8, ParseUsize, DecodeHMsg;
    HMsgCosts(body);
  }

  // Neither panics nor takes more than it was given.
  predicate Contained<T, E>(r: BodyResult<T, E>, length: nat) {
    !r.BodyPanic? && (r.Advance? ==> r.consume <= length)
  }

  lemma ClientBodiesContained(json: Json, body: bytes)
    ensures Contained(DecodeBare<ClientCommand, ClientError>(CPing, body), |body|)
    ensures Contained(DecodeBare<ClientCommand, ClientError>(CPong, body), |body|)
    ensures Contained(DecodePub(body), |body|)
    ensures Contained(DecodeSub(body), |body|)
    ensures Contained(DecodeUnsub(body), |body|)
    ensures Contained(DecodeConnect(json, body), |body|)
  {
    hide ValidUtf8, ParseUsize, Split;
  }

  lemma ServerBodiesContained(json: Json, body: bytes)
    ensures Contained(DecodeBare<ServerCommand, ServerError>(SPing, body), |body|)
    ensures Contained(DecodeBare<ServerCommand, ServerError>(SPong, body), |body|)
    ensures Contained(DecodeBare<ServerCommand, ServerError>(SOk, body), |body|)
    ensures Contained(DecodeMsg(body), |body|)
    ensures Contained(DecodeErr(body), |body|)
    ensures Contained(DecodeInfo(json, body), |body|)
  {
    hide ValidUtf8, ParseUsize, Split;
  }

  // A client body decoder fails with its own error only.
  lemma ClientBodyErrors(json: Json, body: bytes)
    ensures !DecodeBare<ClientCommand, ClientError>(CPing, body).FatalError?
    ensures !DecodeBare<ClientCommand, ClientError>(CPong, body).FatalError?
    ensures DecodeHPub(body).FatalError? ==> DecodeHPub(body).error == BadHPub
    ensures DecodePub(body).FatalError? ==> DecodePub(body).error == BadPub
    ensures DecodeSub(body).FatalError? ==> DecodeSub(body).error == BadSub
    ensures DecodeUnsub(body).FatalError? ==> DecodeUnsub(body).error == BadUnsub
    ensures DecodeConnect(json, body).FatalError? ==> DecodeConnect(json, body).error == BadConnect
  {
    hide ValidUtf8, ParseUsize, Split, ParseHeaders;
  }

  // And so does a server body decoder.
  lemma ServerBodyErrors(json: Json, body: bytes)
    ensures !DecodeBare<ServerCommand, ServerError>(SPing, body).FatalError?
    ensures !DecodeBare<ServerCommand, ServerError>(SPong, body).FatalError?
    ensures !DecodeBare<ServerCommand, ServerError>(SOk, body).FatalError?
    ensures DecodeHMsg(body).FatalError? ==> DecodeHMsg(body).error == BadHMsg
    ensures DecodeMsg(body).FatalError? ==> DecodeMsg(body).error == BadMsg
    ensures DecodeErr(body).FatalError? ==> DecodeErr(body).error == BadErr
    ensures DecodeInfo(json, body).FatalError? ==> DecodeInfo(json, body).error == BadInfo
  {
    hide ValidUtf8, ParseUsize, Split, ParseHeaders;
  }
}
