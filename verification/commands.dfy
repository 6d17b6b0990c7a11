// The commands of the protocol, as both sides of the codec exchange them.
// A Rust `String` or `Bytes` is a byte string here; that a String is UTF-8 is
// stated where it is used.
module Commands {
  import opened Bytes
  import opened Wrappers

  type HeaderMap = map<bytes, seq<bytes>>

  // Contents of INFO and CONNECT travel as JSON. INFO's contents are never
  // looked at, so only the text that was accepted is kept.
  datatype Info = Info(text: bytes)

  datatype Connect = Connect(
    verbose: bool,
    pedantic: bool,
    tlsRequired: bool,
    authToken: Option<string>,
    user: Option<string>,
    pass: Option<string>,
    name: Option<string>,
    lang: string,
    version: string,
    protocol: Option<nat>,
    echo: Option<bool>,
    sig: Option<string>,
    jwt: Option<string>,
    noResponders: Option<bool>,
    headers: Option<bool>,
    nkey: Option<string>)

  datatype Publish = Publish(subject: bytes, replyTo: Option<bytes>, size: nat, payload: bytes)

  datatype HPublish = HPublish(
    subject: bytes,
    replyTo: Option<bytes>,
    headerBytes: nat,
    totalBytes: nat,
    headers: HeaderMap,
    payload: bytes)

  datatype Subscribe = Subscribe(subject: bytes, queueGroup: Option<bytes>, sid: bytes)

  datatype Unsubscribe = Unsubscribe(sid: bytes, maxMsgs: Option<nat>)

  datatype ClientCommand =
    | CConnect(connect: Connect)
    | CPublish(pub: Publish)
    | CHPublish(hpub: HPublish)
    | CSubscribe(sub: Subscribe)
    | CUnsubscribe(unsub: Unsubscribe)
    | CPing
    | CPong

  datatype Msg = Msg(subject: bytes, sid: bytes, replyTo: Option<bytes>, size: nat, payload: bytes)

  datatype HMsg = HMsg(
    subject: bytes,
    sid: bytes,
    replyTo: Option<bytes>,
    headerBytes: nat,
    totalBytes: nat,
    headers: HeaderMap,
    payload: bytes)

  datatype ServerCommand =
    | SInfo(info: Info)
    | SMsg(msg: Msg)
    | SHMsg(hmsg: HMsg)
    | SPing
    | SPong
    | SOk
    | SErr(text: bytes)

  // What a subscriber receives for a MSG or an HMSG.
  datatype Message = Message(
    subject: bytes,
    sid: bytes,
    replyTo: Option<bytes>,
    headers: HeaderMap,
    payload: bytes)

  function FromMsg(m: Msg): Message {
    Message(m.subject, m.sid, m.replyTo, map[], m.payload)
  }

  function FromHMsg(m: HMsg): Message {
    Message(m.subject, m.sid, m.replyTo, m.headers, m.payload)
  }

  datatype ClientError =
    | ExceedsSoftLength | BadConnect | BadSub | BadUnsub | BadPub | BadHPub | UnknownCommand

  datatype ServerError =
    | ServerExceedsSoftLength | BadInfo | BadMsg | BadHMsg | BadErr | ServerUnknownCommand

  // The JSON printer and parser are not part of this model: they are
  // parameters. `Faithful` is what the framing needs of them for one CONNECT.
  datatype Json = Json(
    printConnect: Connect -> bytes,
    parseConnect: bytes -> Option<Connect>,
    parseInfo: bytes -> Option<Info>)
  {
    predicate Faithful(c: Connect) {
      CrlfFree(printConnect(c)) && parseConnect(printConnect(c)) == Some(c)
    }
  }

  // No command is beyond every JSON library.
  lemma SomeJsonIsFaithful(c: Connect, text: bytes)
    requires CrlfFree(text)
    ensures exists json: Json :: json.Faithful(c) && json.printConnect(c) == text
  {
    var json := Json(_ => text, _ => Some(c), _ => None);
    assert json.Faithful(c);
  }
}
