// Decoding a whole byte stream, at once or as it arrives in pieces.
module Streams {
  import opened Bodies
  import opened Bytes
  import opened Commands
  import opened Decoder
  import opened HalfFrames
  import opened Wrappers

  // -------------------------------------------------- decoding a whole stream

  datatype End<+E> = Waiting | Failed(error: E) | Panicked(cause: PanicCause)

  // Frames so far, why decoding stopped, and the bytes still in the buffer.
  datatype Stream<+T, +E> = Stream(frames: seq<T>, end: End<E>, rest: bytes)

  // Decode until more bytes are needed or something goes wrong.
  ghost function DecodeAll<T, E>(codec: Codec<T, E>, src: bytes): Stream<T, E>
    requires Sound(codec)
    decreases |src|
  {
    match Decode(codec, src)
    case NeedMore => Stream([], Waiting, src)
    case Panic(cause) => Stream([], Panicked(cause), src)
    case Fail(e, n) => DecodeConsumesBuffered(codec, src); Stream([], Failed(e), src[n..])
    case Frame(f, n) =>
      DecodeProgresses(codec, src);
      var s := DecodeAll(codec, src[n..]);
      Stream([f] + s.frames, s.end, s.rest)
  }

  // A chunk arrives. After an error nothing is decoded any more.
  ghost function Feed<T, E>(codec: Codec<T, E>, s: Stream<T, E>, chunk: bytes): Stream<T, E>
    requires Sound(codec)
  {
    if s.end.Waiting? then
      var d := DecodeAll(codec, s.rest + chunk);
      Stream(s.frames + d.frames, d.end, d.rest)
    else s.(rest := s.rest + chunk)
  }

  ghost function FeedAll<T, E>(codec: Codec<T, E>, chunks: seq<bytes>): Stream<T, E>
    requires Sound(codec)
  {
    if chunks == [] then Stream([], Waiting, [])
    else Feed(codec, FeedAll(codec, chunks[..|chunks| - 1]), chunks[|chunks| - 1])
  }

  function Concat(chunks: seq<bytes>): bytes {
    if chunks == [] then [] else Concat(chunks[..|chunks| - 1]) + chunks[|chunks| - 1]
  }

  // A panic that more bytes would have avoided.
  predicate Premature<T, E>(s: Stream<T, E>) {
    s.end.Panicked? && s.end.cause != InvalidUtf8
  }

  // Feeding one more chunk is the same as having had it from the start.
  lemma {:induction false} FeedExtends<T, E>(codec: Codec<T, E>, src: bytes, chunk: bytes)
    requires Sound(codec) && !Premature(DecodeAll(codec, src))
    ensures Feed(codec, DecodeAll(codec, src), chunk) == DecodeAll(codec, src + chunk)
    decreases |src|
  {
    hide Decode;
    var o := Decode(codec, src);
    if Final(o) {
      DecodeIsStable(codec, src, chunk);
    }
    match o
    case NeedMore =>
      assert DecodeAll(codec, src) == Stream([], Waiting, src);
    case Panic(_) =>
    case Fail(_, n) =>
      DecodeConsumesBuffered(codec, src);
      assert (src + chunk)[n..] == src[n..] + chunk;
    case Frame(f, n) =>
      DecodeProgresses(codec, src);
      FeedExtends(codec, src[n..], chunk);
      assert (src + chunk)[n..] == src[n..] + chunk;
      var s := DecodeAll(codec, src[n..]);
      var d := DecodeAll(codec, s.rest + chunk);
      assert [f] + s.frames + d.frames == [f] + (s.frames + d.frames);
  }

  lemma EmptyStream<T, E>(codec: Codec<T, E>)
    requires Sound(codec)
    ensures DecodeAll(codec, []) == Stream([], Waiting, [])
  {
  }

  // After its first i chunks a cutting has met a panic that more bytes would
  // have avoided.
  ghost predicate PrematureAfter<T, E>(codec: Codec<T, E>, chunks: seq<bytes>, i: nat)
    requires Sound(codec)
  {
    i <= |chunks| && Premature(DecodeAll(codec, Concat(chunks[..i])))
  }

  lemma {:induction false} FedUntilPremature<T, E>(codec: Codec<T, E>, chunks: seq<bytes>)
    requires Sound(codec)
    ensures Premature(FeedAll(codec, chunks)) <==> exists i: nat :: PrematureAfter(codec, chunks, i)
    ensures (forall i: nat :: i < |chunks| ==> !PrematureAfter(codec, chunks, i)) ==>
              FeedAll(codec, chunks) == DecodeAll(codec, Concat(chunks))
    decreases |chunks|
  {
    hide Decode, Sound;
    var n := |chunks|;
    assert chunks[..n] == chunks;
    if n == 0 {
      EmptyStream(codec);
    } else {
      var front, last := chunks[..n - 1], chunks[n - 1];
      forall i: nat | i < n
        ensures PrematureAfter(codec, chunks, i) <==> PrematureAfter(codec, front, i)
      {
        assert front[..i] == chunks[..i];
      }
      FedUntilPremature(codec, front);
      if Premature(FeedAll(codec, front)) {
        var i: nat :| PrematureAfter(codec, front, i);
        assert PrematureAfter(codec, chunks, i);
      } else {
        assert !PrematureAfter(codec, front, n - 1);
        FeedExtends(codec, Concat(front), last);
        assert Premature(FeedAll(codec, chunks)) <==> PrematureAfter(codec, chunks, n);
      }
    }
  }

  // Feeding a stream in pieces ends in a premature panic exactly when decoding
  // some prefix that ends at a cut does.
  lemma PrematureExactly<T, E>(codec: Codec<T, E>, chunks: seq<bytes>)
    requires Sound(codec)
    ensures Premature(FeedAll(codec, chunks)) <==>
            exists i: nat :: i <= |chunks| && Premature(DecodeAll(codec, Concat(chunks[..i])))
  {
    FedUntilPremature(codec, chunks);
    if i: nat :| i <= |chunks| && Premature(DecodeAll(codec, Concat(chunks[..i]))) {
      assert PrematureAfter(codec, chunks, i);
    }
  }

  // Decoding does not depend on how the stream was cut: the same frames, the
  // same first error and the same unconsumed bytes, whenever no prefix that
  // ends at a cut is one a header frame is met too early in.
  lemma ChunkIndependence<T, E>(codec: Codec<T, E>, chunks: seq<bytes>)
    requires Sound(codec)
    requires forall i: nat :: i < |chunks| ==> !Premature(DecodeAll(codec, Concat(chunks[..i])))
    ensures FeedAll(codec, chunks) == DecodeAll(codec, Concat(chunks))
  {
    FedUntilPremature(codec, chunks);
  }

  // `src` starts with these frames, and `rest` is what they leave.
  ghost predicate Reaches<T(!new), E(!new)>(codec: Codec<T, E>, src: bytes, frames: seq<T>, rest: bytes)
    decreases |frames|
  {
    if frames == [] then src == rest
    else
      var o := Decode(codec, src);
      && o.Frame? && o.frame == frames[0] && o.consumed <= |src|
      && Reaches(codec, src[o.consumed..], frames[1..], rest)
  }

  lemma {:induction false} ReachesMore<T(!new), E(!new)>(
    codec: Codec<T, E>, src: bytes, frames: seq<T>, rest: bytes, more: bytes)
    requires Sound(codec) && Reaches(codec, src, frames, rest)
    ensures Reaches(codec, src + more, frames, rest + more)
    decreases |frames|
  {
    hide Decode;
    if frames != [] {
      var n := Decode(codec, src).consumed;
      DecodeIsStable(codec, src, more);
      ReachesMore(codec, src[n..], frames[1..], rest, more);
      assert (src + more)[n..] == src[n..] + more;
    }
  }

  lemma {:induction false} ReachesThen<T(!new), E(!new)>(codec: Codec<T, E>, src: bytes, frames: seq<T>, rest: bytes)
    requires Sound(codec) && Reaches(codec, src, frames, rest)
    ensures var d := DecodeAll(codec, rest);
            DecodeAll(codec, src) == Stream(frames + d.frames, d.end, d.rest)
    decreases |frames|
  {
    hide Decode, Sound;
    var d := DecodeAll(codec, rest);
    if frames == [] {
      assert frames + d.frames == d.frames;
    } else {
      var n := Decode(codec, src).consumed;
      ReachesThen(codec, src[n..], frames[1..], rest);
      assert [frames[0]] + (frames[1..] + d.frames) == frames + d.frames;
    }
  }

  lemma {:induction false} ReachesAppend<T(!new), E(!new)>(
    codec: Codec<T, E>, src: bytes, a: seq<T>, mid: bytes, b: seq<T>, rest: bytes)
    requires Reaches(codec, src, a, mid) && Reaches(codec, mid, b, rest)
    ensures Reaches(codec, src, a + b, rest)
    decreases |a|
  {
    hide Decode;
    if a == [] {
      assert a + b == b;
    } else {
      ReachesAppend(codec, src[Decode(codec, src).consumed..], a[1..], mid, b, rest);
      assert (a + b)[1..] == a[1..] + b;
    }
  }

  // Unless decoding failed, nothing but frames has left the buffer.
  lemma {:induction false} DecodedFramesAreReached<T(!new), E(!new)>(codec: Codec<T, E>, src: bytes)
    requires Sound(codec) && !DecodeAll(codec, src).end.Failed?
    ensures Reaches(codec, src, DecodeAll(codec, src).frames, DecodeAll(codec, src).rest)
    decreases |src|
  {
    hide Decode;
    if Decode(codec, src).Frame? {
      DecodeProgresses(codec, src);
      DecodedFramesAreReached(codec, src[Decode(codec, src).consumed..]);
    }
  }

  lemma {:induction false} FedFramesAreReached<T(!new), E(!new)>(codec: Codec<T, E>, chunks: seq<bytes>)
    requires Sound(codec) && !FeedAll(codec, chunks).end.Failed?
    ensures Reaches(codec, Concat(chunks), FeedAll(codec, chunks).frames, FeedAll(codec, chunks).rest)
    decreases |chunks|
  {
    hide Decode;
    if chunks != [] {
      var front, last := chunks[..|chunks| - 1], chunks[|chunks| - 1];
      var f := FeedAll(codec, front);
      FedFramesAreReached(codec, front);
      ReachesMore(codec, Concat(front), f.frames, f.rest, last);
      if f.end.Waiting? {
        DecodedFramesAreReached(codec, f.rest + last);
        var d := DecodeAll(codec, f.rest + last);
        ReachesAppend(codec, Concat(chunks), f.frames, f.rest + last, d.frames, d.rest);
      }
    }
  }

  // Every cutting, the panicking ones included: decoding what a cutting left
  // in the buffer completes it to the uncut result. So a premature panic is
  // the only thing a cutting can change, and it changes nothing before it.
  lemma WholeResumesCut<T(!new), E(!new)>(codec: Codec<T, E>, chunks: seq<bytes>)
    requires Sound(codec)
    ensures var cut := FeedAll(codec, chunks);
            var whole := DecodeAll(codec, Concat(chunks));
            if cut.end.Failed? then whole == cut
            else var d := DecodeAll(codec, cut.rest); whole == Stream(cut.frames + d.frames, d.end, d.rest)
  {
    if FeedAll(codec, chunks).end.Failed? {
      FedUntilPremature(codec, chunks);
      assert forall i: nat :: i < |chunks| ==> !PrematureAfter(codec, chunks, i);
    } else {
      FedFramesAreReached(codec, chunks);
      ReachesThen(codec, Concat(chunks), FeedAll(codec, chunks).frames, FeedAll(codec, chunks).rest);
    }
  }

  // Decoding ends, and returns at most one frame for every five bytes.
  lemma {:induction false} FramesAreBounded<T, E>(codec: Codec<T, E>, src: bytes)
    requires Sound(codec)
    ensures var s := DecodeAll(codec, src); 5 * |s.frames| + |s.rest| <= |src|
    decreases |src|
  {
    match Decode(codec, src)
    case NeedMore =>
    case Panic(_) =>
    case Fail(_, n) => DecodeConsumesBuffered(codec, src);
    case Frame(_, n) =>
      DecodeProgresses(codec, src);
      FramesAreBounded(codec, src[n..]);
  }

  // ------------------------------------------- where a cutting can matter

  // Decoding stops with the outcome of what it leaves in the buffer.
  lemma {:induction false} EndsWithRest<T, E>(codec: Codec<T, E>, src: bytes)
    requires Sound(codec)
    ensures var s := DecodeAll(codec, src);
            match s.end
            case Waiting => Decode(codec, s.rest) == NeedMore
            case Panicked(cause) => Decode(codec, s.rest) == Panic(cause)
            case Failed(_) => true
    decreases |src|
  {
    hide Decode;
    if Decode(codec, src).Frame? {
      DecodeProgresses(codec, src);
      EndsWithRest(codec, src[Decode(codec, src).consumed..]);
    }
  }

  // The bytes decoding leaves, unless it failed, hold the front of a frame.
  ghost predicate Leaves<T, E>(codec: Codec<T, E>, src: bytes, half: bytes -> bool)
    requires Sound(codec)
  {
    !DecodeAll(codec, src).end.Failed? && half(DecodeAll(codec, src).rest)
  }

  lemma PrematureLeavesHalf<T, E>(codec: Codec<T, E>, src: bytes, half: bytes -> bool)
    requires Sound(codec)
    requires forall s :: half(s) <==> TooEarly(Decode(codec, s))
    ensures Premature(DecodeAll(codec, src)) <==> Leaves(codec, src, half)
  {
    hide Decode;
    EndsWithRest(codec, src);
  }

  // A client's bytes come out of a cutting as they would uncut unless, at some
  // cut, what is left is the front of an HPUB whose announced size is already
  // reached; exactly then the decoder panics. The same for a server and HMSG.
  lemma CuttingMattersExactly(json: Json, chunks: seq<bytes>)
    ensures Sound(ClientTable(json)) && Sound(ServerTable(json))
    ensures Premature(FeedAll(ClientTable(json), chunks)) <==>
            exists i: nat :: i <= |chunks| && Leaves(ClientTable(json), Concat(chunks[..i]), HalfHPub)
    ensures Premature(FeedAll(ServerTable(json), chunks)) <==>
            exists i: nat :: i <= |chunks| && Leaves(ServerTable(json), Concat(chunks[..i]), HalfHMsg)
  {
    hide Decode, ClientTable, ServerTable, FeedAll, DecodeAll, Sound, HalfHPub, HalfHMsg, Leaves, Premature;
    ClientTableIsSound(json);
    ServerTableIsSound(json);
    PrematureExactly(ClientTable(json), chunks);
    PrematureExactly(ServerTable(json), chunks);
    forall src
      ensures Premature(DecodeAll(ClientTable(json), src)) <==> Leaves(ClientTable(json), src, HalfHPub)
      ensures Premature(DecodeAll(ServerTable(json), src)) <==> Leaves(ServerTable(json), src, HalfHMsg)
    {
      forall s
        ensures HalfHPub(s) <==> TooEarly(Decode(ClientTable(json), s))
        ensures HalfHMsg(s) <==> TooEarly(Decode(ServerTable(json), s))
      {
        HPubTooEarlyExactly(json, s);
        HMsgTooEarlyExactly(json, s);
      }
      PrematureLeavesHalf(ClientTable(json), src, HalfHPub);
      PrematureLeavesHalf(ServerTable(json), src, HalfHMsg);
    }
  }
}
