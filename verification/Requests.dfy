/**
 The requests a data client sends for locks, in their byte form. Unlike responses they
 carry the key; a response names only the application and the store.
 */
module Requests {
  import opened Keys
  import opened Wrappers
  import opened Codec

  datatype Request =
    | ValueRequest(app: Bytes, store: Bytes, forWrite: bool, key: Bytes)
    | NextKeyRequest(app: Bytes, store: Bytes, from: Option<Bytes>)

  function RequestOpcode(r: Request): byte {
    if r.ValueRequest? then 0x21 else 0x22
  }

  /** The opcode the answer is expected to have. */
  function ResponseOpcode(r: Request): byte {
    if r.ValueRequest? then 0x51 else 0x52
  }

  function WriteNullable(b: Option<Bytes>): Bytes {
    if b.None? then [0, 0] else WriteBytes(b.value)
  }

  function WriteRequest(r: Request): Bytes {
    match r
    case ValueRequest(app, store, forWrite, key) => WriteStr(app) + WriteStr(store) + ([if forWrite then 1 else 0] + WriteBytes(key))
    case NextKeyRequest(app, store, from) => WriteStr(app) + WriteStr(store) + WriteNullable(from)
  }

  /** The two names a request begins with, neither of them empty, and what follows. */
  function ReadNames(b: Bytes): Option<(Bytes, Bytes, Bytes)> {
    match ReadStr(b)
    case None => None
    case Some(app) =>
      if app == [] then None else
      var b' := b[|app| + 1..];
      match ReadStr(b')
      case None => None
      case Some(store) => if store == [] then None else Some((app, store, b'[|store| + 1..]))
  }

  /** The server's reading of a message with one of the two opcodes. */
  function ReadRequest(opcode: byte, b: Bytes): Option<Request> {
    match ReadNames(b)
    case None => None
    case Some((app, store, rest)) =>
      if opcode == 0x21 then
        if rest == [] then None else
        match ReadBytes(rest[1..])
        case None => None
        case Some(key) => Some(ValueRequest(app, store, rest[0] == 1, key))
      else
        match ReadBytes(rest)
        case None => None
        case Some(key) => Some(NextKeyRequest(app, store, if key == [] then None else Some(key)))
  }

  predicate SendableRequest(r: Request) {
    && r.app != [] && r.store != []
    && match r
       case ValueRequest(_, _, _, key) => |key| < 0x8000
       case NextKeyRequest(_, _, from) => from.Some? ==> 0 < |from.value| < 0x8000
  }

  lemma NamesRoundTrip(app: Bytes, store: Bytes, rest: Bytes)
    requires NulFree(app) && NulFree(store)
    ensures ReadNames(WriteStr(app) + WriteStr(store) + rest) == if app == [] || store == [] then None else Some((app, store, rest))
  {
    hide ReadStr, NulFree;
    var b := WriteStr(app) + WriteStr(store) + rest;
    var b' := WriteStr(store) + rest;
    assert b == WriteStr(app) + b' && b[|app| + 1..] == b' && b'[|store| + 1..] == rest;
    StrRoundTrip(app, b');
    StrRoundTrip(store, rest);
  }

  /** The server reads what the client wrote exactly when both names are there and the key is
      not too long, and a range's lower bound not empty. */
  lemma RequestRoundTripIff(r: Request)
    requires NulFree(r.app) && NulFree(r.store)
    ensures ReadRequest(RequestOpcode(r), WriteRequest(r)) == Some(r) <==> SendableRequest(r)
    ensures ReadRequest(RequestOpcode(r), WriteRequest(r)).Some? ==>
              var s := ReadRequest(RequestOpcode(r), WriteRequest(r)).value;
              s.app == r.app && s.store == r.store && s.ValueRequest? == r.ValueRequest?
  {
    hide ReadNames, ReadBytes, WriteBytes, WriteStr, NulFree;
    match r {
      case ValueRequest(app, store, forWrite, key) =>
        var rest := [if forWrite then 1 else 0] + WriteBytes(key);
        NamesRoundTrip(app, store, rest);
        BytesRoundTrip(key, []);
        assert rest[1..] == WriteBytes(key) && WriteBytes(key) + [] == WriteBytes(key);
      case NextKeyRequest(app, store, from) =>
        var rest := WriteNullable(from);
        NamesRoundTrip(app, store, rest);
        var d := if from.None? then [] else from.value;
        NoBytes();
        BytesRoundTrip(d, []);
        assert rest == WriteBytes(d) && WriteBytes(d) + [] == WriteBytes(d);
    }
  }

  /** The opcodes of requests and of the responses they expect. */
  lemma RequestOpcodes(r: Request)
    ensures r.ValueRequest? ==> RequestOpcode(r) == 0x21 && ResponseOpcode(r) == 0x51
    ensures r.NextKeyRequest? ==> RequestOpcode(r) == 0x22 && ResponseOpcode(r) == 0x52
  {
  }

  /** Requests on the wire. */
  lemma RequestBytes()
    ensures WriteRequest(ValueRequest([97], [115], true, [8, 9])) == [97, 0, 115, 0, 1, 0, 2, 8, 9]
    ensures WriteRequest(ValueRequest([97], [115], false, [])) == [97, 0, 115, 0, 0, 0, 0]
    ensures WriteRequest(NextKeyRequest([97], [115], Some([8]))) == [97, 0, 115, 0, 0, 1, 8]
    ensures WriteRequest(NextKeyRequest([97], [115], None)) == [97, 0, 115, 0, 0, 0]
  {
    assert WriteShort(0) == [0, 0] && WriteShort(1) == [0, 1] && WriteShort(2) == [0, 2];
  }
}
