// The client's commands as they arrive in pieces.
module Cuts {
  import opened Bytes
  import opened Commands
  import opened Decoder
  import opened Encoder
  import opened HalfFrames
  import opened Headers
  import opened Pieces
  import opened RoundTrip
  import opened Streams
  import opened Text
  import opened Wrappers

  // How much of a command is waited for: all of it, or for HPUB the longer of
  // its first line and `total_bytes` bytes behind the verb.
  function Patience(json: Json, c: ClientCommand, order: seq<bytes>): nat {
    if !c.CHPublish? then |Encode(json, c, order)|
    else
      var lineEnd := |HPUB| + |Line(json, c)| + 2;
      var counted := |HPUB| + c.hpub.totalBytes;
      if lineEnd < counted then counted else lineEnd
  }

  function PieceOf(json: Json, c: ClientCommand, order: seq<bytes>): Piece<ClientCommand> {
    Piece(c, Encode(json, c, order), Patience(json, c, order))
  }

  lemma PieceBehaves(json: Json, c: ClientCommand, order: seq<bytes>)
    requires WellFormed(json, c, order) && LineFits(json, c)
    ensures Behaves(ClientTable(json), PieceOf(json, c, order))
  {
    hide Decode, Encode, ClientTable, WellFormedPub, WellFormedHPub, WellFormedSub, WellFormedUnsub, LineFits, Line;
    var codec := ClientTable(json);
    var text := Encode(json, c, order);
    forall rest
      ensures Decode(codec, text + rest) == Frame(c, |text|)
    {
      CommandRoundTrip(json, c, order, rest);
    }
    forall j: nat | j < |text|
      ensures if j < Patience(json, c, order) then Decode(codec, text[..j]) == NeedMore
              else TooEarly(Decode(codec, text[..j]))
    {
      if c.CHPublish? {
        HalfHPubExactly(json, c.hpub, order, j);
      } else {
        WaitingIsSafe(json, c, order, j);
      }
    }
  }

  function PiecesOf(json: Json, cs: seq<ClientCommand>, orders: seq<seq<bytes>>): (ps: seq<Piece<ClientCommand>>)
    requires |cs| == |orders|
    ensures |ps| == |cs| && forall i :: 0 <= i < |ps| ==> ps[i] == PieceOf(json, cs[i], orders[i])
  {
    if cs == [] then [] else [PieceOf(json, cs[0], orders[0])] + PiecesOf(json, cs[1..], orders[1..])
  }

  lemma {:induction false} TextsAreEncodings(json: Json, cs: seq<ClientCommand>, orders: seq<seq<bytes>>)
    requires |cs| == |orders|
    ensures Texts(PiecesOf(json, cs, orders)) == EncodeAll(json, cs, orders)
    ensures Frames(PiecesOf(json, cs, orders)) == cs
    decreases |cs|
  {
    hide Encode, Patience;
    if cs != [] {
      TextsAreEncodings(json, cs[1..], orders[1..]);
      assert PiecesOf(json, cs, orders)[1..] == PiecesOf(json, cs[1..], orders[1..]);
    }
  }

  // Position k of the encoded stream lies between two commands, or inside one
  // where the decoder waits for the rest of it.
  predicate SafeClientCut(json: Json, cs: seq<ClientCommand>, orders: seq<seq<bytes>>, k: nat)
    requires |cs| == |orders|
  {
    SafeCut(PiecesOf(json, cs, orders), k)
  }

  // For every stream of well-formed commands, HPUB included, and however often
  // and wherever it is cut: the commands come back, and nothing is left over,
  // if and only if no cut lies inside an HPUB behind its first line and behind
  // `total_bytes` bytes counted from the verb.
  lemma ClientCutsExactly(json: Json, cs: seq<ClientCommand>, orders: seq<seq<bytes>>, chunks: seq<bytes>)
    requires |cs| == |orders|
    requires forall i :: 0 <= i < |cs| ==> WellFormed(json, cs[i], orders[i]) && LineFits(json, cs[i])
    requires Concat(chunks) == EncodeAll(json, cs, orders)
    ensures Sound(ClientTable(json))
    ensures FeedAll(ClientTable(json), chunks) == Stream(cs, Waiting, []) <==>
            forall i: nat :: i <= |chunks| ==> SafeClientCut(json, cs, orders, |Concat(chunks[..i])|)
  {
    hide Decode, ClientTable, WellFormed, LineFits, Behaves, FeedAll, PieceOf;
    ClientTableIsSound(json);
    var ps := PiecesOf(json, cs, orders);
    forall i | 0 <= i < |ps|
      ensures Behaves(ClientTable(json), ps[i])
    {
      PieceBehaves(json, cs[i], orders[i]);
    }
    TextsAreEncodings(json, cs, orders);
    CutsExactly(ClientTable(json), ps, chunks);
  }

  // ------------------------------------------------- streams without headers

  ghost predicate Streamable(json: Json, cs: seq<ClientCommand>) {
    forall i :: 0 <= i < |cs| ==> WellFormed(json, cs[i], []) && LineFits(json, cs[i]) && !cs[i].CHPublish?
  }

  function NoOrders(cs: seq<ClientCommand>): (orders: seq<seq<bytes>>)
    ensures |orders| == |cs| && forall i :: 0 <= i < |orders| ==> orders[i] == []
  {
    if cs == [] then [] else [[]] + NoOrders(cs[1..])
  }

  function Bytestream(json: Json, cs: seq<ClientCommand>): bytes {
    EncodeAll(json, cs, NoOrders(cs))
  }

  lemma BytestreamUnfold(json: Json, cs: seq<ClientCommand>)
    requires cs != []
    ensures Bytestream(json, cs) == Encode(json, cs[0], []) + Bytestream(json, cs[1..])
  {
    assert NoOrders(cs)[1..] == NoOrders(cs[1..]);
  }

  lemma BytestreamEmpty(json: Json)
    ensures Bytestream(json, []) == []
  {
  }

  // Without HPUB every position is safe, so any cutting will do.
  lemma AnyCutRoundTrip(json: Json, cs: seq<ClientCommand>, chunks: seq<bytes>)
    requires Streamable(json, cs)
    requires Concat(chunks) == Bytestream(json, cs)
    ensures Sound(ClientTable(json))
    ensures FeedAll(ClientTable(json), chunks) == Stream(cs, Waiting, [])
  {
    hide Decode, Encode, ClientTable, WellFormed, LineFits, FeedAll;
    var orders := NoOrders(cs);
    ClientCutsExactly(json, cs, orders, chunks);
    forall i: nat | i <= |chunks|
      ensures SafeClientCut(json, cs, orders, |Concat(chunks[..i])|)
    {
      PatienceIsSafe(PiecesOf(json, cs, orders), |Concat(chunks[..i])|);
    }
  }

  // --------------------------------------------------- one cut inside an HPUB

  // Cut in two, an HPUB command comes back exactly when the cut lies where the
  // decoder waits: before the end of the first line, before `total_bytes` bytes
  // behind the verb, or at the very end.
  lemma HPubCutExactly(json: Json, p: HPublish, order: seq<bytes>, k: nat)
    requires WellFormedHPub(p, order) && LineFits(json, CHPublish(p))
    requires k <= |Encode(json, CHPublish(p), order)|
    ensures Sound(ClientTable(json))
    ensures var c := CHPublish(p);
            var enc := Encode(json, c, order);
            FeedAll(ClientTable(json), [enc[..k], enc[k..]]) == Stream([c], Waiting, [])
            <==> k < |HPUB| + |Line(json, c)| + 2 || k < |HPUB| + p.totalBytes || k == |enc|
  {
    hide Decode, Encode, ClientTable, WellFormedHPub, LineFits, FeedAll, Line;
    var c := CHPublish(p);
    var enc := Encode(json, c, order);
    var chunks := [enc[..k], enc[k..]];
    TwoChunks(enc, k);
    assert EncodeAll(json, [c], [order]) == enc + [];
    assert enc + [] == enc;
    ClientCutsExactly(json, [c], [order], chunks);
    var ps := PiecesOf(json, [c], [order]);
    assert ps[0] == PieceOf(json, c, order) && ps[1..] == [];
    EncodingIsLong(json, c, order);
    assert SafeCut(ps[1..], 0);
    forall i: nat | i <= |chunks|
      ensures SafeClientCut(json, [c], [order], |Concat(chunks[..i])|) <==> (i == 1 ==> SafeCut(ps, k))
    {
      assert i == 0 || i == 1 || i == 2;
    }
    assert SafeClientCut(json, [c], [order], |Concat(chunks[..1])|) <==> SafeCut(ps, k);
    assert SafeCut(ps, k) <==> (k < |enc| ==> k < Patience(json, c, order));
  }

  lemma EncodingIsLong(json: Json, c: ClientCommand, order: seq<bytes>)
    ensures |Encode(json, c, order)| >= 6 && Patience(json, c, order) >= 6
  {
    VerbHasNoCr(c);
  }

  lemma TwoChunks(enc: bytes, k: nat)
    requires k <= |enc|
    ensures var chunks := [enc[..k], enc[k..]];
            && Concat(chunks) == enc
            && Concat(chunks[..0]) == [] && Concat(chunks[..1]) == enc[..k] && chunks[..2] == chunks
  {
    var chunks := [enc[..k], enc[k..]];
    assert chunks[..1] == [enc[..k]] && [enc[..k]][..0] == [] && chunks[..0] == [];
    assert Concat([enc[..k]]) == [] + enc[..k];
    assert Concat(chunks) == Concat(chunks[..1]) + enc[k..];
  }

  // The smallest such command, "HPUB A 12 12" with no header and no payload,
  // cut behind its seventeenth byte.
  lemma HPubCutExample(json: Json)
    ensures Sound(ClientTable(json))
    ensures var c := CHPublish(HPublish([0x41], None, 12, 12, map[], []));
            var enc := Encode(json, c, []);
            && |enc| == 28
            && DecodeAll(ClientTable(json), enc) == Stream([c], Waiting, [])
            && FeedAll(ClientTable(json), [enc[..17], enc[17..]]) != Stream([c], Waiting, [])
  {
    hide Decode, Encode, ClientTable, Sound, FeedAll, DecodeAll, Line;
    ClientTableIsSound(json);
    var p := HPublish([0x41], None, 12, 12, map[], []);
    var c := CHPublish(p);
    var enc := Encode(json, c, []);
    ExampleIsWellFormed(json, p);
    HPubCutExactly(json, p, [], 17);
    StreamRoundTrip(json, [c], [[]]);
    assert EncodeAll(json, [c], [[]]) == enc + [];
    assert enc + [] == enc;
  }

  lemma ExampleIsWellFormed(json: Json, p: HPublish)
    requires p == HPublish([0x41], None, 12, 12, map[], [])
    ensures WellFormedHPub(p, []) && LineFits(json, CHPublish(p))
    ensures |Line(json, CHPublish(p))| == 7 && |Encode(json, CHPublish(p), [])| == 28
  {
    AsciiIsUtf8(p.subject);
    assert Decimal(1) == [0x31];
    assert Decimal(12) == [0x31, 0x32];
    assert HPubFields(p) == [p.subject, Decimal(12), Decimal(12)];
    JoinThree(p.subject, Decimal(12), Decimal(12), SPACE);
    assert Flatten([], p.headers) == [];
    assert |PrintBlock([], p.headers)| == 12;
  }
}
