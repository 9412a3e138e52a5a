/**
 * The benchmark's legacy MongoDB wire protocol: the 16-byte message header,
 * the OP_QUERY / OP_INSERT / OP_UPDATE / OP_DELETE request bodies, the
 * OP_REPLY body, the request-id counter and the receive loop.
 *
 * The socket is replaced by values: `Client.sent` is the list of frames
 * handed to `sendall`, and an `Incoming` value is what the peer delivers
 * (the single 16-byte header read, then the byte stream of the body and
 * the size each successive `recv` call would return).
 */
module WireProtocol {
  import opened Wrappers
  import opened Bytes
  import opened BsonCodec
  import BsonRoundTrip

  const OP_REPLY: int := 1
  const OP_UPDATE: int := 2001
  const OP_INSERT: int := 2002
  const OP_QUERY: int := 2004
  const OP_DELETE: int := 2006

  /** The exceptions the wire routines raise. */
  datatype WireError =
    | PackError                       // struct.error from pack: a field outside its width
    | UnpackError                     // struct.error from unpack_from: buffer too short
    | IOError                         // short header or connection closed mid-body
    | UnexpectedOpcode(opcode: int)   // ValueError: reply was not OP_REPLY
    | Malformed(cause: DecodeError)   // raised by bson_decode

  datatype Header = Header(messageLength: int, requestId: int, responseTo: int, opcode: int)

  datatype Reply = Reply(flags: int, cursorId: int, startingFrom: int, numberReturned: int,
                         documents: seq<seq<Field>>)

  /** What the peer delivers: the result of `recv(16)`, then the body stream and recv sizes. */
  datatype Incoming = Incoming(header: seq<byte>, stream: seq<byte>, sizes: seq<nat>)

  // ---------------------------------------------------------------------
  // Header and frames
  // ---------------------------------------------------------------------

  /** `struct.pack('<iiii', ...)`: fails if any field is outside int32. */
  function MakeHeader(h: Header): Result<seq<byte>, WireError>
  {
    if InInt32(h.messageLength) && InInt32(h.requestId) && InInt32(h.responseTo) && InInt32(h.opcode) then
      Ok(LE(h.messageLength, 4) + LE(h.requestId, 4) + LE(h.responseTo, 4) + LE(h.opcode, 4))
    else
      Err(PackError)
  }

  /** `struct.unpack('<iiii', b)`. */
  function ParseHeader(b: seq<byte>): Header
    requires |b| == 16
  {
    Header(Int32LE(b[0..4]), Int32LE(b[4..8]), Int32LE(b[8..12]), Int32LE(b[12..16]))
  }

  /** A packed header is 16 bytes and unpacks to the same four fields. */
  lemma HeaderRoundTrip(h: Header)
    requires InInt32(h.messageLength) && InInt32(h.requestId) && InInt32(h.responseTo) && InInt32(h.opcode)
    ensures MakeHeader(h).Ok? && |MakeHeader(h).value| == 16
    ensures ParseHeader(MakeHeader(h).value) == h
  {
    var b := MakeHeader(h).value;
    assert b[0..4] == LE(h.messageLength, 4);
    assert b[4..8] == LE(h.requestId, 4);
    assert b[8..12] == LE(h.responseTo, 4);
    assert b[12..16] == LE(h.opcode, 4);
    Int32RoundTrip(h.messageLength);
    Int32RoundTrip(h.requestId);
    Int32RoundTrip(h.responseTo);
    Int32RoundTrip(h.opcode);
  }

  /** `make_header(16 + len(body), request_id, 0, opcode) + body`. */
  function MessageFrame(requestId: int, opcode: int, body: seq<byte>): Result<seq<byte>, WireError>
  {
    match MakeHeader(Header(16 + |body|, requestId, 0, opcode))
    case Ok(h) => Ok(h + body)
    case Err(e) => Err(e)
  }

  /** A frame's header states the frame's own length, the request id and responseTo 0. */
  predicate WellFramed(f: seq<byte>)
  {
    |f| >= 16 && ParseHeader(f[..16]).messageLength == |f| && ParseHeader(f[..16]).responseTo == 0
  }

  function RequestIdOf(f: seq<byte>): int
    requires |f| >= 16
  {
    ParseHeader(f[..16]).requestId
  }

  /** Every frame built has `messageLength = 16 + len(body)`, `responseTo = 0` and carries the body. */
  lemma MessageFrameLayout(requestId: int, opcode: int, body: seq<byte>)
    requires MessageFrame(requestId, opcode, body).Ok?
    ensures var f := MessageFrame(requestId, opcode, body).value;
      |f| == 16 + |body| && f[16..] == body && WellFramed(f)
      && ParseHeader(f[..16]) == Header(16 + |body|, requestId, 0, opcode)
  {
    var h := Header(16 + |body|, requestId, 0, opcode);
    HeaderRoundTrip(h);
    var f := MessageFrame(requestId, opcode, body).value;
    assert f == MakeHeader(h).value + body;
    assert f[..16] == MakeHeader(h).value;
  }

  /** The frame is refused exactly when the length or the id does not fit in an int32. */
  lemma MessageFrameFails(requestId: int, opcode: int, body: seq<byte>)
    requires InInt32(opcode)
    ensures MessageFrame(requestId, opcode, body).Err?
        <==> !InInt32(16 + |body|) || !InInt32(requestId)
  {
  }

  // ---------------------------------------------------------------------
  // Request bodies
  // ---------------------------------------------------------------------

  /** What `bson_encode(doc)` returns, with its struct.error as `PackError`. */
  function Encoded(doc: Option<seq<Field>>): Result<seq<byte>, WireError>
  {
    if doc.None? then Ok([5, 0, 0, 0, 0])
    else if Packable(doc.value) then Ok(EncodeDocument(doc.value))
    else Err(PackError)
  }

  /** `f"{db}.{collection}".encode('utf-8') + b'\x00'`, with both names already as bytes. */
  function FullName(db: seq<byte>, collection: seq<byte>): seq<byte>
  {
    db + [0x2E] + collection + [0]
  }

  /** Every document encodes. */
  predicate AllPackable(docs: seq<seq<Field>>)
  {
    forall i :: 0 <= i < |docs| ==> Packable(docs[i])
  }

  /** Byte strings back to back. */
  function Concat(parts: seq<seq<byte>>): seq<byte>
  {
    if |parts| == 0 then [] else parts[0] + Concat(parts[1..])
  }

  /** The encoded documents, back to back. */
  function EncodeAll(docs: seq<seq<Field>>): seq<byte>
  {
    Concat(seq(|docs|, i requires 0 <= i < |docs| => EncodeDocument(docs[i])))
  }

  /** Appending one more part at the end. */
  lemma {:induction false} ConcatSnoc(parts: seq<seq<byte>>, x: seq<byte>)
    ensures Concat(parts + [x]) == Concat(parts) + x
    decreases |parts|
  {
    if |parts| == 0 {
      assert parts + [x] == [x];
    } else {
      assert (parts + [x])[1..] == parts[1..] + [x];
      ConcatSnoc(parts[1..], x);
    }
  }

  /** The OP_QUERY body; an empty or absent projection contributes no bytes. */
  function QueryBody(flags: int, fullName: seq<byte>, skip: int, limit: int,
                     query: Option<seq<Field>>, fields: Option<seq<Field>>): Result<seq<byte>, WireError>
  {
    var fieldsBson := if fields.None? || fields.value == [] then Ok([]) else Encoded(fields);
    if Encoded(query).Err? || fieldsBson.Err? || !InInt32(flags) || !InInt32(skip) || !InInt32(limit) then
      Err(PackError)
    else
      Ok(LE(flags, 4) + fullName + LE(skip, 4) + LE(limit, 4) + (Encoded(query).value + fieldsBson.value))
  }

  /** The OP_INSERT body: flags, collection name, then every document's bytes. */
  function InsertBody(flags: int, fullName: seq<byte>, docs: seq<seq<Field>>): Result<seq<byte>, WireError>
  {
    if AllPackable(docs) && InInt32(flags) then Ok(LE(flags, 4) + fullName + EncodeAll(docs))
    else Err(PackError)
  }

  /** The OP_UPDATE body: a zero int32, the name, flags, selector and update. */
  function UpdateBody(flags: int, fullName: seq<byte>, selector: Option<seq<Field>>,
                      update: Option<seq<Field>>): Result<seq<byte>, WireError>
  {
    if Encoded(selector).Err? || Encoded(update).Err? || !InInt32(flags) then Err(PackError)
    else Ok(LE(0, 4) + fullName + LE(flags, 4) + Encoded(selector).value + Encoded(update).value)
  }

  /** The OP_DELETE body: a zero int32, the name, flags and the selector. */
  function DeleteBody(flags: int, fullName: seq<byte>, selector: Option<seq<Field>>): Result<seq<byte>, WireError>
  {
    if Encoded(selector).Err? || !InInt32(flags) then Err(PackError)
    else Ok(LE(0, 4) + fullName + LE(flags, 4) + Encoded(selector).value)
  }

  // ---------------------------------------------------------------------
  // Reply bodies
  // ---------------------------------------------------------------------

  /**
   * The `for _ in range(num_returned)` loop of `parse_op_reply`: decode `count`
   * documents one after another from `offset`, appending to `acc`.
   */
  function DecodeDocs(body: seq<byte>, offset: int, count: int, acc: seq<seq<Field>>)
    : Result<seq<seq<Field>>, WireError>
    decreases if count > 0 then count else 0
  {
    if count <= 0 then Ok(acc)
    else if offset < 0 then Err(Malformed(NegativeLength))
    else
      match DecodeDocument(body, offset)
      case Err(e) => Err(Malformed(e))
      case Ok(dn) => DecodeDocs(body, dn.1, count - 1, acc + [dn.0])
  }

  /** `parse_op_reply(body)`: the `<iqii` preamble, then the documents from offset 20. */
  function ParseReply(body: seq<byte>): Result<Reply, WireError>
  {
    if |body| < 20 then Err(UnpackError)
    else
      var n := Int32LE(body[16..20]);
      match DecodeDocs(body, 20, n, [])
      case Err(e) => Err(e)
      case Ok(docs) => Ok(Reply(Int32LE(body[0..4]), Int64LE(body[4..12]), Int32LE(body[12..16]), n, docs))
  }

  /** An OP_REPLY body as a server lays it out. */
  function ReplyBody(flags: int, cursorId: int, startingFrom: int, docs: seq<seq<Field>>): seq<byte>
  {
    LE(flags, 4) + LE(cursorId, 8) + LE(startingFrom, 4) + LE(|docs|, 4) + EncodeAll(docs)
  }

  /** Every document decodes back to itself. */
  predicate AllDecodable(docs: seq<seq<Field>>)
  {
    forall i :: 0 <= i < |docs| ==> Packable(docs[i]) && Decodable(docs[i])
  }

  /** The documents of a well-formed reply come back in order, with the preamble fields. */
  lemma ReplyRoundTrip(flags: int, cursorId: int, startingFrom: int, docs: seq<seq<Field>>)
    requires InInt32(flags) && InInt64(cursorId) && InInt32(startingFrom) && |docs| <= INT32_MAX
    requires AllDecodable(docs)
    ensures ParseReply(ReplyBody(flags, cursorId, startingFrom, docs))
         == Ok(Reply(flags, cursorId, startingFrom, |docs|, docs))
  {
    var body := ReplyBody(flags, cursorId, startingFrom, docs);
    ReplyPreamble(flags, cursorId, startingFrom, docs);
    Int32RoundTrip(flags);
    Int64RoundTrip(cursorId);
    Int32RoundTrip(startingFrom);
    Int32RoundTrip(|docs|);
    DocsRoundTrip(body, 20, 20 + |EncodeAll(docs)|, docs, []);
    assert [] + docs == docs;
    ReplyFromParts(body, flags, cursorId, startingFrom, |docs|, docs);
  }

  /** Where the preamble fields and the documents sit in a reply body. */
  lemma ReplyPreamble(flags: int, cursorId: int, startingFrom: int, docs: seq<seq<Field>>)
    ensures var body := ReplyBody(flags, cursorId, startingFrom, docs);
            |body| == 20 + |EncodeAll(docs)| &&
            body[0..4] == LE(flags, 4) && body[4..12] == LE(cursorId, 8) &&
            body[12..16] == LE(startingFrom, 4) && body[16..20] == LE(|docs|, 4) &&
            body[20..20 + |EncodeAll(docs)|] == EncodeAll(docs)
  {
    Split5(LE(flags, 4), LE(cursorId, 8), LE(startingFrom, 4), LE(|docs|, 4), EncodeAll(docs));
  }

  /** `parse_op_reply` assembles the reply from the preamble fields and the decoded documents. */
  lemma ReplyFromParts(body: seq<byte>, flags: int, cursorId: int, startingFrom: int, n: int,
                       docs: seq<seq<Field>>)
    requires |body| >= 20
    requires Int32LE(body[0..4]) == flags && Int64LE(body[4..12]) == cursorId
    requires Int32LE(body[12..16]) == startingFrom && Int32LE(body[16..20]) == n
    requires DecodeDocs(body, 20, n, []) == Ok(docs)
    ensures ParseReply(body) == Ok(Reply(flags, cursorId, startingFrom, n, docs))
  {
  }

  /** Encoded documents found back to back at `offset` decode to the same documents. */
  lemma {:induction false} DocsRoundTrip(body: seq<byte>, offset: nat, end: nat, docs: seq<seq<Field>>,
                                         acc: seq<seq<Field>>)
    requires AllDecodable(docs)
    requires end == offset + |EncodeAll(docs)| <= |body| && body[offset..end] == EncodeAll(docs)
    ensures DecodeDocs(body, offset, |docs|, acc) == Ok(acc + docs)
    decreases |docs|
  {
    if |docs| == 0 {
      assert acc + docs == acc;
    } else {
      var next := offset + |EncodeDocument(docs[0])|;
      DocsWindow(body, offset, end, docs);
      DocsHead(body, offset, |docs|, acc, docs[0]);
      AllDecodableTail(docs);
      DocsRoundTrip(body, next, end, docs[1..], acc + [docs[0]]);
      assert acc + [docs[0]] + docs[1..] == acc + docs;
    }
  }

  /** The first document decodes in place; the loop goes on after it. */
  lemma DocsHead(body: seq<byte>, offset: nat, n: nat, acc: seq<seq<Field>>, d: seq<Field>)
    requires n > 0 && Packable(d) && Decodable(d)
    requires offset + |EncodeDocument(d)| <= |body| && body[offset..offset + |EncodeDocument(d)|] == EncodeDocument(d)
    ensures DecodeDocs(body, offset, n, acc) == DecodeDocs(body, offset + |EncodeDocument(d)|, n - 1, acc + [d])
  {
    BsonRoundTrip.DocumentRoundTrip(body, offset, d);
    DocsFirst(body, offset, n, acc, d, offset + |EncodeDocument(d)|);
  }

  /** The first document's bytes, then the rest's, in the window of all of them. */
  lemma DocsWindow(body: seq<byte>, offset: nat, end: nat, docs: seq<seq<Field>>)
    requires |docs| > 0 && end == offset + |EncodeAll(docs)| <= |body|
    requires body[offset..end] == EncodeAll(docs)
    ensures offset + |EncodeDocument(docs[0])| + |EncodeAll(docs[1..])| == end
    ensures body[offset..offset + |EncodeDocument(docs[0])|] == EncodeDocument(docs[0])
    ensures body[offset + |EncodeDocument(docs[0])|..end] == EncodeAll(docs[1..])
  {
    EncodeAllCons(docs);
    BsonRoundTrip.SplitWindow(body, offset, end, EncodeDocument(docs[0]), EncodeAll(docs[1..]));
  }

  lemma AllDecodableTail(docs: seq<seq<Field>>)
    requires |docs| > 0 && AllDecodable(docs)
    ensures AllDecodable(docs[1..])
  {
    forall i | 0 <= i < |docs| - 1 ensures Packable(docs[1..][i]) && Decodable(docs[1..][i]) {
      assert docs[1..][i] == docs[i + 1];
    }
  }

  /** One pass of the `parse_op_reply` loop, unfolded. */
  lemma DocsFirst(body: seq<byte>, offset: nat, n: nat, acc: seq<seq<Field>>, d: seq<Field>, next: int)
    requires n > 0 && DecodeDocument(body, offset) == Ok((d, next))
    ensures DecodeDocs(body, offset, n, acc) == DecodeDocs(body, next, n - 1, acc + [d])
  {
  }

  /** `EncodeAll` splits at the front. */
  lemma EncodeAllCons(docs: seq<seq<Field>>)
    requires |docs| > 0
    ensures EncodeAll(docs) == EncodeDocument(docs[0]) + EncodeAll(docs[1..])
  {
    var parts := seq(|docs|, i requires 0 <= i < |docs| => EncodeDocument(docs[i]));
    assert parts[1..] == seq(|docs[1..]|, i requires 0 <= i < |docs[1..]| => EncodeDocument(docs[1..][i]));
  }

  /** `EncodeAll` grows at the back. */
  lemma EncodeAllSnoc(docs: seq<seq<Field>>, d: seq<Field>)
    ensures EncodeAll(docs + [d]) == EncodeAll(docs) + EncodeDocument(d)
  {
    var parts := seq(|docs|, i requires 0 <= i < |docs| => EncodeDocument(docs[i]));
    assert seq(|docs + [d]|, i requires 0 <= i < |docs + [d]| => EncodeDocument((docs + [d])[i]))
        == parts + [EncodeDocument(d)];
    ConcatSnoc(parts, EncodeDocument(d));
  }

  /** A body shorter than the 20-byte preamble makes `unpack_from` raise. */
  lemma ShortReplyRejected(body: seq<byte>)
    requires |body| < 20
    ensures ParseReply(body) == Err(UnpackError)
  {
  }

  // ---------------------------------------------------------------------
  // Receiving
  // ---------------------------------------------------------------------

  function Min(a: int, b: int): int { if a < b then a else b }

  /**
   * `sock.recv(want)` when the peer's stream holds `stream` and `got` bytes of it
   * were already read: at most `size` bytes (what the OS delivers this time),
   * at most `want`, and nothing beyond the end of the stream.
   */
  function Recv(stream: seq<byte>, got: nat, size: nat, want: int): (chunk: seq<byte>)
    requires got <= |stream|
    ensures |chunk| <= size && |chunk| <= |stream| - got
    ensures |chunk| == Min(Min(size, if want < 0 then 0 else want), |stream| - got)
    ensures chunk == stream[got..got + |chunk|]
  {
    var n := Min(Min(size, if want < 0 then 0 else want), |stream| - got);
    stream[got..got + n]
  }

  /** The body loop of `send_message`, from `got` bytes read with `sizes` recv sizes still to come. */
  function ReadFrom(stream: seq<byte>, sizes: seq<nat>, need: int, got: nat): Result<seq<byte>, WireError>
    requires got <= |stream|
    decreases |sizes|
  {
    if got >= need then Ok(stream[..got])
    else if |sizes| == 0 then Err(IOError)
    else
      var chunk := Recv(stream, got, sizes[0], need - got);
      if |chunk| == 0 then Err(IOError)
      else ReadFrom(stream, sizes[1..], need, got + |chunk|)
  }

  /** `resp_len - 16` bytes read in a loop, however the stream is cut into recv results. */
  function ReadBody(stream: seq<byte>, sizes: seq<nat>, need: int): Result<seq<byte>, WireError>
  {
    ReadFrom(stream, sizes, need, 0)
  }

  /** `send_message`'s receive half: one 16-byte header read, then the body loop. */
  function Receive(incoming: Incoming): Result<(int, seq<byte>), WireError>
    requires |incoming.header| <= 16
  {
    if |incoming.header| < 16 then Err(IOError)
    else
      var h := ParseHeader(incoming.header);
      match ReadBody(incoming.stream, incoming.sizes, h.messageLength - 16)
      case Err(e) => Err(e)
      case Ok(body) => Ok((h.opcode, body))
  }

  /** The loop stops with exactly `need` bytes (none for a non-positive need): the stream's prefix. */
  lemma {:induction false} ReadFromExact(stream: seq<byte>, sizes: seq<nat>, need: int, got: nat)
    requires got <= |stream| && (got <= need || got == 0)
    requires ReadFrom(stream, sizes, need, got).Ok?
    ensures need <= |stream|
    ensures ReadFrom(stream, sizes, need, got).value == stream[..if need < 0 then 0 else need]
    decreases |sizes|
  {
    if got >= need {
    } else {
      var chunk := Recv(stream, got, sizes[0], need - got);
      ReadFromExact(stream, sizes[1..], need, got + |chunk|);
    }
  }

  /** Whatever the recv sizes, a completed read holds the first `resp_len - 16` bytes. */
  lemma ReadBodyExact(stream: seq<byte>, sizes: seq<nat>, need: int)
    requires ReadBody(stream, sizes, need).Ok?
    ensures need <= |stream|
    ensures ReadBody(stream, sizes, need).value == stream[..if need < 0 then 0 else need]
  {
    ReadFromExact(stream, sizes, need, 0);
  }

  /** If the peer closes before `need` bytes arrived, the loop raises IOError. */
  lemma {:induction false} ReadFromShort(stream: seq<byte>, sizes: seq<nat>, need: int, got: nat)
    requires got <= |stream| < need
    ensures ReadFrom(stream, sizes, need, got) == Err(IOError)
    decreases |sizes|
  {
    if |sizes| > 0 {
      var chunk := Recv(stream, got, sizes[0], need - got);
      if |chunk| > 0 {
        ReadFromShort(stream, sizes[1..], need, got + |chunk|);
      }
    }
  }

  /** Every recv delivering at least one byte, `need` recvs are enough to complete the read. */
  lemma {:induction false} ReadFromCompletes(stream: seq<byte>, sizes: seq<nat>, need: int, got: nat)
    requires got <= |stream| && need <= |stream|
    requires forall i :: 0 <= i < |sizes| ==> sizes[i] > 0
    requires got + |sizes| >= need
    ensures ReadFrom(stream, sizes, need, got).Ok?
    decreases |sizes|
  {
    if got < need {
      var chunk := Recv(stream, got, sizes[0], need - got);
      ReadFromCompletes(stream, sizes[1..], need, got + |chunk|);
    }
  }

  /** A header read that returns fewer than 16 bytes raises IOError. */
  lemma ShortHeaderRejected(incoming: Incoming)
    requires |incoming.header| < 16
    ensures Receive(incoming) == Err(IOError)
  {
  }

  /** The body loop of `send_message`, one `recv` per pass. */
  method ReceiveBody(stream: seq<byte>, sizes: seq<nat>, bodyLen: int) returns (r: Result<seq<byte>, WireError>)
    ensures r == ReadBody(stream, sizes, bodyLen)
  {
    var respBody: seq<byte> := [];
    var i := 0;
    while |respBody| < bodyLen
      invariant |respBody| <= |stream| && respBody == stream[..|respBody|]
      invariant 0 <= i <= |sizes|
      invariant ReadBody(stream, sizes, bodyLen) == ReadFrom(stream, sizes[i..], bodyLen, |respBody|)
      decreases bodyLen - |respBody|
    {
      var chunk: seq<byte> := [];
      if i < |sizes| {
        chunk := Recv(stream, |respBody|, sizes[i], bodyLen - |respBody|);
        assert sizes[i..][1..] == sizes[i + 1..];
      }
      if |chunk| == 0 {
        return Err(IOError);
      }
      respBody := respBody + chunk;
      i := i + 1;
    }
    return Ok(respBody);
  }

  /** The receive half of `send_message`. */
  method ReceiveReply(incoming: Incoming) returns (r: Result<(int, seq<byte>), WireError>)
    requires |incoming.header| <= 16
    ensures r == Receive(incoming)
  {
    if |incoming.header| < 16 {
      return Err(IOError);
    }
    var h := ParseHeader(incoming.header);
    var body := ReceiveBody(incoming.stream, incoming.sizes, h.messageLength - 16);
    if body.Err? {
      return Err(body.error);
    }
    return Ok((h.opcode, body.value));
  }

  /** `parse_op_reply(body)`: unpack the preamble, then decode `num_returned` documents. */
  method ParseOpReply(body: seq<byte>) returns (r: Result<Reply, WireError>)
    ensures r == ParseReply(body)
  {
    if |body| < 20 {
      return Err(UnpackError);
    }
    var flags := Int32LE(body[0..4]);
    var cursorId := Int64LE(body[4..12]);
    var startingFrom := Int32LE(body[12..16]);
    var numReturned := Int32LE(body[16..20]);
    var documents: seq<seq<Field>> := [];
    var offset: int := 20;
    var i := 0;
    while i < numReturned
      invariant DecodeDocs(body, 20, numReturned, []) == DecodeDocs(body, offset, numReturned - i, documents)
      decreases numReturned - i
    {
      if offset < 0 {
        return Err(Malformed(NegativeLength));
      }
      var decoded := BsonDecode(body, offset);
      if decoded.Err? {
        return Err(Malformed(decoded.error));
      }
      documents := documents + [decoded.value.0];
      offset := decoded.value.1;
      i := i + 1;
    }
    return Ok(Reply(flags, cursorId, startingFrom, numReturned, documents));
  }

  /** `send_op_query`'s reply handling: only OP_REPLY is accepted. */
  function QueryOutcome(incoming: Incoming): Result<seq<seq<Field>>, WireError>
    requires |incoming.header| <= 16
  {
    match Receive(incoming)
    case Err(e) => Err(e)
    case Ok(reply) =>
      if reply.0 != OP_REPLY then Err(UnexpectedOpcode(reply.0))
      else
        match ParseReply(reply.1)
        case Err(e) => Err(e)
        case Ok(rep) => Ok(rep.documents)
  }

  // ---------------------------------------------------------------------
  // The client: request-id counter and the frames it sends
  // ---------------------------------------------------------------------

  /**
   * The global `_request_id` and the connection's outgoing side.  Every frame
   * sent is well framed, and request ids strictly increase along `sent`.
   */
  class Client {
    var lastRequestId: int
    var sent: seq<seq<byte>>

    ghost predicate Valid()
      reads this
    {
      ValidLog(lastRequestId, sent)
    }

    constructor()
      ensures Valid() && lastRequestId == 0 && sent == []
    {
      lastRequestId := 0;
      sent := [];
    }

    /** `get_request_id()`: ids are 1, 2, 3, ... */
    method NextRequestId() returns (id: int)
      requires Valid()
      modifies this
      ensures Valid() && sent == old(sent)
      ensures id == lastRequestId == old(lastRequestId) + 1
    {
      LogBump(lastRequestId, sent);
      lastRequestId := lastRequestId + 1;
      id := lastRequestId;
    }

    /** Take a fresh id and `sendall(header + body)`; the id is spent even if packing fails. */
    method SendFrame(opcode: int, body: seq<byte>) returns (r: Result<(), WireError>)
      requires Valid()
      modifies this
      ensures Valid()
      ensures lastRequestId == old(lastRequestId) + 1
      ensures MessageFrame(lastRequestId, opcode, body).Ok? ==>
        r.Ok? && sent == old(sent) + [MessageFrame(lastRequestId, opcode, body).value]
      ensures MessageFrame(lastRequestId, opcode, body).Err? ==> r == Err(PackError) && sent == old(sent)
    {
      var requestId := NextRequestId();
      var frame := MessageFrame(requestId, opcode, body);
      if frame.Err? {
        return Err(PackError);
      }
      MessageFrameLayout(requestId, opcode, body);
      LogAppend(lastRequestId, sent, frame.value);
      sent := sent + [frame.value];
      return Ok(());
    }

    /** `send_message`: send one frame, then read the reply header and body. */
    method SendMessage(opcode: int, body: seq<byte>, incoming: Incoming)
      returns (r: Result<(int, seq<byte>), WireError>)
      requires Valid() && |incoming.header| <= 16
      modifies this
      ensures Valid()
      ensures lastRequestId == old(lastRequestId) + 1
      ensures MessageFrame(lastRequestId, opcode, body).Ok? ==>
        sent == old(sent) + [MessageFrame(lastRequestId, opcode, body).value] && r == Receive(incoming)
      ensures MessageFrame(lastRequestId, opcode, body).Err? ==> r == Err(PackError) && sent == old(sent)
    {
      var s := SendFrame(opcode, body);
      if s.Err? {
        return Err(PackError);
      }
      r := ReceiveReply(incoming);
    }

    /** `send_op_query`: nothing is sent if the body cannot be packed. */
    method SendOpQuery(db: seq<byte>, collection: seq<byte>, query: Option<seq<Field>>,
                       fields: Option<seq<Field>>, skip: int, limit: int, flags: int, incoming: Incoming)
      returns (r: Result<seq<seq<Field>>, WireError>)
      requires Valid() && |incoming.header| <= 16
      modifies this
      ensures Valid()
      ensures QueryBody(flags, FullName(db, collection), skip, limit, query, fields).Err? ==>
        r == Err(PackError) && lastRequestId == old(lastRequestId) && sent == old(sent)
      ensures QueryBody(flags, FullName(db, collection), skip, limit, query, fields).Ok? ==>
        var body := QueryBody(flags, FullName(db, collection), skip, limit, query, fields).value;
        lastRequestId == old(lastRequestId) + 1 &&
        (MessageFrame(lastRequestId, OP_QUERY, body).Ok? ==>
          sent == old(sent) + [MessageFrame(lastRequestId, OP_QUERY, body).value] && r == QueryOutcome(incoming)) &&
        (MessageFrame(lastRequestId, OP_QUERY, body).Err? ==> r == Err(PackError) && sent == old(sent))
    {
      var fullName := FullName(db, collection);
      var queryBson := BsonEncode(query);
      var fieldsBson: Result<seq<byte>, EncodeError> := Ok([]);
      if fields.Some? && fields.value != [] {
        fieldsBson := BsonEncode(fields);
      }
      if queryBson.Err? || fieldsBson.Err? || !InInt32(flags) || !InInt32(skip) || !InInt32(limit) {
        return Err(PackError);
      }
      var body := LE(flags, 4) + fullName + LE(skip, 4) + LE(limit, 4) + (queryBson.value + fieldsBson.value);
      assert QueryBody(flags, fullName, skip, limit, query, fields) == Ok(body);
      var reply := SendMessage(OP_QUERY, body, incoming);
      if reply.Err? {
        return Err(reply.error);
      }
      if reply.value.0 != OP_REPLY {
        return Err(UnexpectedOpcode(reply.value.0));
      }
      var parsed := ParseOpReply(reply.value.1);
      if parsed.Err? {
        return Err(parsed.error);
      }
      return Ok(parsed.value.documents);
    }

    /** `send_op_insert`: the documents' bytes are concatenated in a loop; no reply is read. */
    method SendOpInsert(db: seq<byte>, collection: seq<byte>, documents: seq<seq<Field>>, flags: int)
      returns (r: Result<(), WireError>)
      requires Valid()
      modifies this
      ensures Valid()
      ensures InsertBody(flags, FullName(db, collection), documents).Err? ==>
        r == Err(PackError) && lastRequestId == old(lastRequestId) && sent == old(sent)
      ensures InsertBody(flags, FullName(db, collection), documents).Ok? ==>
        var body := InsertBody(flags, FullName(db, collection), documents).value;
        lastRequestId == old(lastRequestId) + 1 &&
        (MessageFrame(lastRequestId, OP_INSERT, body).Ok? ==>
          r.Ok? && sent == old(sent) + [MessageFrame(lastRequestId, OP_INSERT, body).value]) &&
        (MessageFrame(lastRequestId, OP_INSERT, body).Err? ==> r == Err(PackError) && sent == old(sent))
    {
      var fullName := FullName(db, collection);
      var docsBson := EncodeDocuments(documents);
      if docsBson.Err? || !InInt32(flags) {
        return Err(PackError);
      }
      var body := LE(flags, 4) + fullName + docsBson.value;
      r := SendFrame(OP_INSERT, body);
    }

    /** `send_op_update`: fire and forget. */
    method SendOpUpdate(db: seq<byte>, collection: seq<byte>, selector: Option<seq<Field>>,
                        update: Option<seq<Field>>, flags: int)
      returns (r: Result<(), WireError>)
      requires Valid()
      modifies this
      ensures Valid()
      ensures UpdateBody(flags, FullName(db, collection), selector, update).Err? ==>
        r == Err(PackError) && lastRequestId == old(lastRequestId) && sent == old(sent)
      ensures UpdateBody(flags, FullName(db, collection), selector, update).Ok? ==>
        var body := UpdateBody(flags, FullName(db, collection), selector, update).value;
        lastRequestId == old(lastRequestId) + 1 &&
        (MessageFrame(lastRequestId, OP_UPDATE, body).Ok? ==>
          r.Ok? && sent == old(sent) + [MessageFrame(lastRequestId, OP_UPDATE, body).value]) &&
        (MessageFrame(lastRequestId, OP_UPDATE, body).Err? ==> r == Err(PackError) && sent == old(sent))
    {
      var fullName := FullName(db, collection);
      var selectorBson := BsonEncode(selector);
      var updateBson := BsonEncode(update);
      if selectorBson.Err? || updateBson.Err? || !InInt32(flags) {
        return Err(PackError);
      }
      var body := LE(0, 4) + fullName + LE(flags, 4) + selectorBson.value + updateBson.value;
      r := SendFrame(OP_UPDATE, body);
    }

    /** `send_op_delete`: fire and forget. */
    method SendOpDelete(db: seq<byte>, collection: seq<byte>, selector: Option<seq<Field>>, flags: int)
      returns (r: Result<(), WireError>)
      requires Valid()
      modifies this
      ensures Valid()
      ensures DeleteBody(flags, FullName(db, collection), selector).Err? ==>
        r == Err(PackError) && lastRequestId == old(lastRequestId) && sent == old(sent)
      ensures DeleteBody(flags, FullName(db, collection), selector).Ok? ==>
        var body := DeleteBody(flags, FullName(db, collection), selector).value;
        lastRequestId == old(lastRequestId) + 1 &&
        (MessageFrame(lastRequestId, OP_DELETE, body).Ok? ==>
          r.Ok? && sent == old(sent) + [MessageFrame(lastRequestId, OP_DELETE, body).value]) &&
        (MessageFrame(lastRequestId, OP_DELETE, body).Err? ==> r == Err(PackError) && sent == old(sent))
    {
      var fullName := FullName(db, collection);
      var selectorBson := BsonEncode(selector);
      if selectorBson.Err? || !InInt32(flags) {
        return Err(PackError);
      }
      var body := LE(0, 4) + fullName + LE(flags, 4) + selectorBson.value;
      r := SendFrame(OP_DELETE, body);
    }
  }

  /** The `docs_bson += bson_encode(doc)` loop of `send_op_insert`. */
  method EncodeDocuments(documents: seq<seq<Field>>) returns (r: Result<seq<byte>, WireError>)
    ensures AllPackable(documents) ==> r == Ok(EncodeAll(documents))
    ensures !AllPackable(documents) ==> r == Err(PackError)
  {
    var docsBson: seq<byte> := [];
    var i := 0;
    while i < |documents|
      invariant 0 <= i <= |documents|
      invariant AllPackable(documents[..i]) && docsBson == EncodeAll(documents[..i])
    {
      var encoded := BsonEncode(Some(documents[i]));
      if encoded.Err? {
        assert !Packable(documents[i]);
        return Err(PackError);
      }
      assert documents[..i + 1] == documents[..i] + [documents[i]];
      EncodeAllSnoc(documents[..i], documents[i]);
      docsBson := docsBson + encoded.value;
      i := i + 1;
    }
    assert documents[..i] == documents;
    return Ok(docsBson);
  }

  /** The sent-frame log: well framed, ids strictly increasing, none above the counter. */
  ghost predicate ValidLog(lastRequestId: int, sent: seq<seq<byte>>)
  {
    && 0 <= lastRequestId
    && (forall i :: 0 <= i < |sent| ==> WellFramed(sent[i]))
    && (forall i, j :: 0 <= i < j < |sent| ==> RequestIdOf(sent[i]) < RequestIdOf(sent[j]))
    && (forall i :: 0 <= i < |sent| ==> 1 <= RequestIdOf(sent[i]) <= lastRequestId)
  }

  /** Spending an id keeps the log valid. */
  lemma LogBump(lastRequestId: int, sent: seq<seq<byte>>)
    requires ValidLog(lastRequestId, sent)
    ensures ValidLog(lastRequestId + 1, sent)
  {
  }

  /** Sending a well-framed frame with the id just taken keeps the log valid. */
  lemma LogAppend(lastRequestId: int, sent: seq<seq<byte>>, f: seq<byte>)
    requires ValidLog(lastRequestId - 1, sent) && lastRequestId >= 1
    requires WellFramed(f) && RequestIdOf(f) == lastRequestId
    ensures ValidLog(lastRequestId, sent + [f])
  {
    var s := sent + [f];
    forall i | 0 <= i < |s| ensures WellFramed(s[i]) && 1 <= RequestIdOf(s[i]) <= lastRequestId {
      if i < |sent| { assert s[i] == sent[i]; }
    }
    forall i, j | 0 <= i < j < |s| ensures RequestIdOf(s[i]) < RequestIdOf(s[j]) {
      assert s[i] == sent[i];
      if j < |sent| { assert s[j] == sent[j]; }
    }
  }

  /** Starting from a fresh client, the k-th frame sent (counting from 0) carries request id k+1. */
  lemma FreshIdsAreConsecutive(sent: seq<seq<byte>>)
    requires ValidLog(|sent|, sent)
    ensures forall i :: 0 <= i < |sent| ==> RequestIdOf(sent[i]) == i + 1
  {
    forall i | 0 <= i < |sent|
      ensures RequestIdOf(sent[i]) == i + 1
    {
      IdsBelow(sent, i);
      IdsAbove(sent, i);
    }
  }

  /** Strictly increasing ids from 1: the i-th is at least i+1. */
  lemma {:induction false} IdsBelow(sent: seq<seq<byte>>, i: nat)
    requires i < |sent|
    requires forall k :: 0 <= k < |sent| ==> |sent[k]| >= 16
    requires forall a, b :: 0 <= a < b < |sent| ==> RequestIdOf(sent[a]) < RequestIdOf(sent[b])
    requires forall k :: 0 <= k < |sent| ==> 1 <= RequestIdOf(sent[k])
    ensures RequestIdOf(sent[i]) >= i + 1
    decreases i
  {
    if i > 0 {
      IdsBelow(sent, i - 1);
    }
  }

  /** Strictly increasing ids up to |sent|: the i-th is at most i+1. */
  lemma {:induction false} IdsAbove(sent: seq<seq<byte>>, i: nat)
    requires i < |sent|
    requires forall k :: 0 <= k < |sent| ==> |sent[k]| >= 16
    requires forall a, b :: 0 <= a < b < |sent| ==> RequestIdOf(sent[a]) < RequestIdOf(sent[b])
    requires forall k :: 0 <= k < |sent| ==> RequestIdOf(sent[k]) <= |sent|
    ensures RequestIdOf(sent[i]) <= i + 1
    decreases |sent| - i
  {
    if i + 1 < |sent| {
      IdsAbove(sent, i + 1);
    }
  }

  // ---------------------------------------------------------------------
  // Layout of the request bodies
  // ---------------------------------------------------------------------

  /** The OP_QUERY body reads back: flags, name, skip, limit, then the query document. */
  lemma QueryBodyLayout(flags: int, fullName: seq<byte>, skip: int, limit: int,
                        query: seq<Field>, fields: Option<seq<Field>>)
    requires QueryBody(flags, fullName, skip, limit, Some(query), fields).Ok?
    requires Decodable(query)
    ensures var b := QueryBody(flags, fullName, skip, limit, Some(query), fields).value;
      var n := |fullName|;
      |b| >= 12 + n && Int32LE(b[0..4]) == flags && b[4..4 + n] == fullName
      && Int32LE(b[4 + n..8 + n]) == skip && Int32LE(b[8 + n..12 + n]) == limit
      && DecodeDocument(b, 12 + n) == Ok((query, 12 + n + |EncodeDocument(query)|))
  {
    var fb := if fields.None? || fields.value == [] then [] else Encoded(fields).value;
    var b := QueryBody(flags, fullName, skip, limit, Some(query), fields).value;
    assert b == LE(flags, 4) + fullName + LE(skip, 4) + LE(limit, 4) + (EncodeDocument(query) + fb);
    PreambleFields(flags, fullName, skip, limit, EncodeDocument(query) + fb);
    QueryDocumentAt(flags, fullName, skip, limit, query, fb, b);
  }

  /** The query document of a query body, over any trailing bytes, decodes after the preamble. */
  lemma QueryDocumentAt(flags: int, fullName: seq<byte>, skip: int, limit: int, query: seq<Field>, tail: seq<byte>, b: seq<byte>)
    requires InInt32(flags) && InInt32(skip) && InInt32(limit)
    requires Packable(query) && Decodable(query)
    requires b == LE(flags, 4) + fullName + LE(skip, 4) + LE(limit, 4) + (EncodeDocument(query) + tail)
    ensures DecodeDocument(b, 12 + |fullName|) == Ok((query, 12 + |fullName| + |EncodeDocument(query)|))
  {
    var pre := LE(flags, 4) + fullName + LE(skip, 4) + LE(limit, 4);
    assert |pre| == 12 + |fullName| by {
      PreambleFields(flags, fullName, skip, limit, EncodeDocument(query) + tail);
    }
    DocumentAfter(pre, query, tail, 12 + |fullName|);
  }

  /** An encoded document placed after any prefix decodes from the prefix's end. */
  lemma DocumentAfter(pre: seq<byte>, doc: seq<Field>, tail: seq<byte>, at: nat)
    requires Packable(doc) && Decodable(doc) && at == |pre|
    ensures DecodeDocument(pre + (EncodeDocument(doc) + tail), at)
         == Ok((doc, at + |EncodeDocument(doc)|))
  {
    var e := EncodeDocument(doc);
    MiddleSlice(pre, e, tail);
    BsonRoundTrip.DocumentRoundTrip(pre + (e + tail), |pre|, doc);
  }

  /** The middle part of `a + (x + c)` sits right after `a`. */
  lemma MiddleSlice(a: seq<byte>, x: seq<byte>, c: seq<byte>)
    ensures |a| + |x| <= |a + (x + c)| && (a + (x + c))[|a|..|a| + |x|] == x
  {
  }

  /** The fixed part in front of a query body: three int32s around the name. */
  lemma PreambleFields(flags: int, fullName: seq<byte>, skip: int, limit: int, rest: seq<byte>)
    requires InInt32(flags) && InInt32(skip) && InInt32(limit)
    ensures var b := LE(flags, 4) + fullName + LE(skip, 4) + LE(limit, 4) + rest;
      var n := |fullName|;
      |b| == 12 + n + |rest| && Int32LE(b[0..4]) == flags && b[4..4 + n] == fullName
      && Int32LE(b[4 + n..8 + n]) == skip && Int32LE(b[8 + n..12 + n]) == limit && b[12 + n..] == rest
  {
    Split5(LE(flags, 4), fullName, LE(skip, 4), LE(limit, 4), rest);
    Int32RoundTrip(flags);
    Int32RoundTrip(skip);
    Int32RoundTrip(limit);
  }

  /** The OP_INSERT body reads back: flags, name, then every document in order. */
  lemma InsertBodyLayout(flags: int, fullName: seq<byte>, docs: seq<seq<Field>>)
    requires InsertBody(flags, fullName, docs).Ok?
    requires AllDecodable(docs)
    ensures var b := InsertBody(flags, fullName, docs).value;
      var n := |fullName|;
      |b| >= 4 + n && Int32LE(b[0..4]) == flags && b[4..4 + n] == fullName
      && DecodeDocs(b, 4 + n, |docs|, []) == Ok(docs)
  {
    var b := InsertBody(flags, fullName, docs).value;
    var n := |fullName|;
    assert b[0..4] == LE(flags, 4);
    assert b[4..4 + n] == fullName;
    assert b[4 + n..4 + n + |EncodeAll(docs)|] == EncodeAll(docs);
    Int32RoundTrip(flags);
    DocsRoundTrip(b, 4 + n, 4 + n + |EncodeAll(docs)|, docs, []);
    assert [] + docs == docs;
  }

  /** The OP_UPDATE body reads back: zero, name, flags, selector, update. */
  lemma UpdateBodyLayout(flags: int, fullName: seq<byte>, selector: seq<Field>, update: seq<Field>)
    requires UpdateBody(flags, fullName, Some(selector), Some(update)).Ok?
    requires Decodable(selector) && Decodable(update)
    ensures var b := UpdateBody(flags, fullName, Some(selector), Some(update)).value;
      var n := |fullName|;
      var s := |EncodeDocument(selector)|;
      |b| >= 8 + n && Int32LE(b[0..4]) == 0 && b[4..4 + n] == fullName && Int32LE(b[4 + n..8 + n]) == flags
      && DecodeDocs(b, 8 + n, 2, []) == Ok([selector, update])
  {
    var docs := [selector, update];
    assert EncodeAll(docs) == EncodeDocument(selector) + EncodeDocument(update) by {
      EncodeAllCons(docs);
      assert docs[1..] == [update];
      EncodeAllCons([update]);
      assert [update][1..] == [];
    }
    assert UpdateBody(flags, fullName, Some(selector), Some(update)).value
        == LE(0, 4) + fullName + LE(flags, 4) + EncodeAll(docs);
    assert AllDecodable(docs) by {
      assert docs[0] == selector && docs[1] == update;
    }
    UpdateBytesLayout(flags, fullName, docs);
  }

  /** Zero, name, flags, then documents back to back: each part reads back. */
  lemma UpdateBytesLayout(flags: int, fullName: seq<byte>, docs: seq<seq<Field>>)
    requires InInt32(flags) && AllDecodable(docs)
    ensures var b := LE(0, 4) + fullName + LE(flags, 4) + EncodeAll(docs);
      var n := |fullName|;
      |b| >= 8 + n && Int32LE(b[0..4]) == 0 && b[4..4 + n] == fullName && Int32LE(b[4 + n..8 + n]) == flags
      && DecodeDocs(b, 8 + n, |docs|, []) == Ok(docs)
  {
    var b := LE(0, 4) + fullName + LE(flags, 4) + EncodeAll(docs);
    var n := |fullName|;
    WordNameWord(0, fullName, flags, EncodeAll(docs));
    assert b[8 + n..8 + n + |EncodeAll(docs)|] == b[8 + n..];
    DocsRoundTrip(b, 8 + n, 8 + n + |EncodeAll(docs)|, docs, []);
    assert [] + docs == docs;
  }

  /** The OP_DELETE body reads back: zero, name, flags, selector. */
  lemma DeleteBodyLayout(flags: int, fullName: seq<byte>, selector: seq<Field>)
    requires DeleteBody(flags, fullName, Some(selector)).Ok?
    requires Decodable(selector)
    ensures var b := DeleteBody(flags, fullName, Some(selector)).value;
      var n := |fullName|;
      |b| == 8 + n + |EncodeDocument(selector)| && Int32LE(b[0..4]) == 0 && b[4..4 + n] == fullName
      && Int32LE(b[4 + n..8 + n]) == flags
      && DecodeDocument(b, 8 + n) == Ok((selector, |b|))
  {
    var b := DeleteBody(flags, fullName, Some(selector)).value;
    assert b == LE(0, 4) + fullName + LE(flags, 4) + EncodeDocument(selector);
    WordNameWord(0, fullName, flags, EncodeDocument(selector));
    SelectorAt(flags, fullName, selector, b);
  }

  /** The selector of a delete body decodes right after the two int32s and the name. */
  lemma SelectorAt(flags: int, fullName: seq<byte>, selector: seq<Field>, b: seq<byte>)
    requires InInt32(flags) && Packable(selector) && Decodable(selector)
    requires b == LE(0, 4) + fullName + LE(flags, 4) + EncodeDocument(selector)
    ensures DecodeDocument(b, 8 + |fullName|) == Ok((selector, 8 + |fullName| + |EncodeDocument(selector)|))
  {
    var e := EncodeDocument(selector);
    var at := 8 + |fullName|;
    WordNameWord(0, fullName, flags, e);
    assert b[at..at + |e|] == b[at..];
    BsonRoundTrip.DocumentRoundTrip(b, at, selector);
  }

  /** An int32, a name, an int32, then anything: each part reads back. */
  lemma WordNameWord(x: int, name: seq<byte>, y: int, rest: seq<byte>)
    requires InInt32(x) && InInt32(y)
    ensures var b := LE(x, 4) + name + LE(y, 4) + rest;
      var n := |name|;
      |b| == 8 + n + |rest| && Int32LE(b[0..4]) == x && b[4..4 + n] == name
      && Int32LE(b[4 + n..8 + n]) == y && b[8 + n..] == rest
  {
    Split4(LE(x, 4), name, LE(y, 4), rest);
    Int32RoundTrip(x);
    Int32RoundTrip(y);
  }

  /** An empty or absent projection adds no bytes: the body ends with the query document. */
  lemma EmptyProjectionOmitted(flags: int, fullName: seq<byte>, skip: int, limit: int,
                               query: Option<seq<Field>>, fields: Option<seq<Field>>)
    requires fields.None? || fields.value == []
    requires QueryBody(flags, fullName, skip, limit, query, fields).Ok?
    ensures QueryBody(flags, fullName, skip, limit, query, fields).value
         == LE(flags, 4) + fullName + LE(skip, 4) + LE(limit, 4) + Encoded(query).value
  {
  }

  // ---------------------------------------------------------------------
  // ObjectId generation
  // ---------------------------------------------------------------------

  /** The 12 bytes of a generated ObjectId: timestamp, machine, pid, counter. */
  function ObjectIdBytes(timestamp: int, machine: seq<byte>, pid: int, counter: int): seq<byte>
  {
    BE(timestamp, 4) + machine + BE(pid, 2) + BE(counter, 3)
  }

  /** The id decomposes back into its four parts. */
  lemma ObjectIdLayout(timestamp: int, machine: seq<byte>, pid: int, counter: int)
    requires 0 <= timestamp < TWO_32 && |machine| == 3 && 0 <= pid < 0x1_0000 && 0 <= counter < 0x100_0000
    ensures var b := ObjectIdBytes(timestamp, machine, pid, counter);
      |b| == 12 && FromBE(b[..4]) == timestamp && b[4..7] == machine
      && FromBE(b[7..9]) == pid && FromBE(b[9..]) == counter
  {
    Split4(BE(timestamp, 4), machine, BE(pid, 2), BE(counter, 3));
    Pow256Values();
    UnsignedBERoundTrip(timestamp, 4);
    UnsignedBERoundTrip(pid, 2);
    UnsignedBERoundTrip(counter, 3);
  }

  /** The class-level state of `ObjectId`: a 24-bit counter, machine bytes and pid. */
  class ObjectIdGenerator {
    var counter: int
    const machine: seq<byte>
    const pid: int

    ghost predicate Valid()
      reads this
    {
      0 <= counter < 0x100_0000 && |machine| == 3 && 0 <= pid < 0x1_0000
    }

    /** `random.randint(0, 0xFFFFFF)`, `random.randbytes(3)`, `random.randint(0, 0xFFFF)` as parameters. */
    constructor(seed: int, machineBytes: seq<byte>, processId: int)
      requires 0 <= seed < 0x100_0000 && |machineBytes| == 3 && 0 <= processId < 0x1_0000
      ensures Valid() && counter == seed && machine == machineBytes && pid == processId
    {
      counter := seed;
      machine := machineBytes;
      pid := processId;
    }

    /** `ObjectId()`: bump the counter mod 2^24, then lay out the 12 bytes; `now` is `int(time.time())`. */
    method Generate(now: int) returns (binary: seq<byte>)
      requires Valid() && 0 <= now < TWO_32
      modifies this
      ensures Valid()
      ensures counter == (old(counter) + 1) % 0x100_0000
      ensures binary == ObjectIdBytes(now, machine, pid, counter)
    {
      counter := (counter + 1) % 0x100_0000;
      binary := BE(now, 4) + machine + BE(pid, 2) + BE(counter, 3);
    }
  }

  /** The counter wraps: after 0xFFFFFF the next id ends in three zero bytes. */
  lemma CounterWraps(timestamp: int, machine: seq<byte>, pid: int)
    requires 0 <= timestamp < TWO_32 && |machine| == 3 && 0 <= pid < 0x1_0000
    ensures ObjectIdBytes(timestamp, machine, pid, (0xFF_FFFF + 1) % 0x100_0000)[9..] == [0, 0, 0]
  {
    var b := ObjectIdBytes(timestamp, machine, pid, 0);
    assert b[9..] == BE(0, 3);
  }
}
