// Streams of known frames, cut at will: a theorem about any table of body
// decoders, to be used for both sides of the wire.
module Pieces {
  import opened Bytes
  import opened Decoder
  import opened HalfFrames
  import opened Streams

  // A frame, its bytes, and how many of them the decoder waits for patiently.
  datatype Piece<+T> = Piece(frame: T, text: bytes, patience: nat)

  // Whole, whatever follows, the bytes are the frame; a strict prefix shorter
  // than `patience` is waited for, any other strict prefix is met too early.
  ghost predicate Behaves<T(!new), E(!new)>(codec: Codec<T, E>, p: Piece<T>) {
    && (forall rest :: Decode(codec, p.text + rest) == Frame(p.frame, |p.text|))
    && (forall j: nat :: j < |p.text| ==>
          if j < p.patience then Decode(codec, p.text[..j]) == NeedMore else TooEarly(Decode(codec, p.text[..j])))
  }

  function Texts<T>(ps: seq<Piece<T>>): bytes {
    if ps == [] then [] else ps[0].text + Texts(ps[1..])
  }

  function Frames<T>(ps: seq<Piece<T>>): (fs: seq<T>)
    ensures |fs| == |ps| && forall i :: 0 <= i < |fs| ==> fs[i] == ps[i].frame
  {
    if ps == [] then [] else [ps[0].frame] + Frames(ps[1..])
  }

  // Position k of the stream lies between two pieces or where the piece it
  // lies in is waited for.
  predicate SafeCut<T>(ps: seq<Piece<T>>, k: nat) {
    if ps == [] then true
    else if k < |ps[0].text| then k < ps[0].patience
    else SafeCut(ps[1..], k - |ps[0].text|)
  }

  ghost predicate AllBehave<T(!new), E(!new)>(codec: Codec<T, E>, ps: seq<Piece<T>>) {
    forall i :: 0 <= i < |ps| ==> Behaves(codec, ps[i])
  }

  lemma FirstFrame<T(!new), E(!new)>(codec: Codec<T, E>, p: Piece<T>, rest: bytes)
    requires Sound(codec) && Behaves(codec, p)
    ensures var d := DecodeAll(codec, rest);
            DecodeAll(codec, p.text + rest) == Stream([p.frame] + d.frames, d.end, d.rest)
  {
    hide Decode;
    var src := p.text + rest;
    assert Decode(codec, src) == Frame(p.frame, |p.text|);
    assert src[|p.text|..] == rest;
  }

  // Decoding a prefix of the stream waits at its end, or has met a frame too
  // early, as the position decides.
  lemma {:induction false} PrefixDecodes<T(!new), E(!new)>(codec: Codec<T, E>, ps: seq<Piece<T>>, k: nat)
    requires Sound(codec) && AllBehave(codec, ps) && k <= |Texts(ps)|
    ensures var d := DecodeAll(codec, Texts(ps)[..k]);
            if SafeCut(ps, k) then d.end == Waiting else Premature(d)
    decreases |ps|
  {
    hide Decode, Sound, Behaves;
    var src := Texts(ps)[..k];
    if ps == [] {
      EmptyStream(codec);
    } else {
      var first, tail := ps[0].text, Texts(ps[1..]);
      if k < |first| {
        assert src == first[..k];
        HalfPiece(codec, ps[0], k);
      } else {
        assert src == first + tail[..k - |first|];
        FirstFrame(codec, ps[0], tail[..k - |first|]);
        PrefixDecodes(codec, ps[1..], k - |first|);
      }
    }
  }

  lemma HalfPiece<T(!new), E(!new)>(codec: Codec<T, E>, p: Piece<T>, j: nat)
    requires Sound(codec) && Behaves(codec, p) && j < |p.text|
    ensures var d := DecodeAll(codec, p.text[..j]);
            if j < p.patience then d.end == Waiting else Premature(d)
  {
    hide Decode;
  }

  lemma {:induction false} WholeDecodes<T(!new), E(!new)>(codec: Codec<T, E>, ps: seq<Piece<T>>)
    requires Sound(codec) && AllBehave(codec, ps)
    ensures DecodeAll(codec, Texts(ps)) == Stream(Frames(ps), Waiting, [])
    decreases |ps|
  {
    hide Decode, Sound, Behaves;
    if ps == [] {
      EmptyStream(codec);
    } else {
      FirstFrame(codec, ps[0], Texts(ps[1..]));
      WholeDecodes(codec, ps[1..]);
    }
  }

  lemma {:induction false} ConcatPrefix(chunks: seq<bytes>, i: nat)
    requires i <= |chunks|
    ensures |Concat(chunks[..i])| <= |Concat(chunks)|
    ensures Concat(chunks[..i]) == Concat(chunks)[..|Concat(chunks[..i])|]
    decreases |chunks|
  {
    if i == |chunks| {
      assert chunks[..i] == chunks;
    } else {
      var front := chunks[..|chunks| - 1];
      ConcatPrefix(front, i);
      assert front[..i] == chunks[..i];
    }
  }

  // Fed in pieces, the stream comes back whole if and only if every cut lies
  // at a safe position. Nothing is assumed of the number or size of the chunks.
  lemma CutsExactly<T(!new), E(!new)>(codec: Codec<T, E>, ps: seq<Piece<T>>, chunks: seq<bytes>)
    requires Sound(codec) && AllBehave(codec, ps) && Concat(chunks) == Texts(ps)
    ensures FeedAll(codec, chunks) == Stream(Frames(ps), Waiting, []) <==>
            forall i: nat :: i <= |chunks| ==> SafeCut(ps, |Concat(chunks[..i])|)
  {
    hide Decode, Sound, Behaves, AllBehave, FeedAll, DecodeAll, SafeCut, Texts, Concat, Premature;
    forall i: nat | i <= |chunks|
      ensures Premature(DecodeAll(codec, Concat(chunks[..i]))) <==> !SafeCut(ps, |Concat(chunks[..i])|)
    {
      ConcatPrefix(chunks, i);
      PrefixDecodes(codec, ps, |Concat(chunks[..i])|);
      WaitingIsNotPremature(DecodeAll(codec, Concat(chunks[..i])));
    }
    PrematureExactly(codec, chunks);
    WaitingIsNotPremature(FeedAll(codec, chunks));
    if forall i: nat :: i <= |chunks| ==> SafeCut(ps, |Concat(chunks[..i])|) {
      forall i: nat | i < |chunks|
        ensures !Premature(DecodeAll(codec, Concat(chunks[..i])))
      {
        assert SafeCut(ps, |Concat(chunks[..i])|);
      }
      ChunkIndependence(codec, chunks);
      WholeDecodes(codec, ps);
    }
  }

  lemma WaitingIsNotPremature<T, E>(s: Stream<T, E>)
    ensures s.end == Waiting ==> !Premature(s)
  {
  }

  // A stream whose frames are all waited for to the last byte can be cut
  // anywhere.
  lemma {:induction false} PatienceIsSafe<T>(ps: seq<Piece<T>>, k: nat)
    requires forall i :: 0 <= i < |ps| ==> |ps[i].text| <= ps[i].patience
    ensures SafeCut(ps, k)
    decreases |ps|
  {
    if ps != [] && k >= |ps[0].text| {
      PatienceIsSafe(ps[1..], k - |ps[0].text|);
    }
  }
}
