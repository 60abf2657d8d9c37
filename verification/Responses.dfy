/** The response packet: write_response sends it in C, connect takes it apart in Python. */
module Responses {
  import opened Bytes
  import opened Codes
  import opened ByteOrder
  import opened Crypto
  import opened Streams
  import opened Protocol

  // ----- the packet -----

  const BASE_SIZE := 15

  function ContentBytes(content: Option<Content>): Text {
    match content case None => [] case Some(c) => c.digest + c.stream
  }

  function PayloadLen(msg: Text, content: Option<Content>): nat {
    |msg| + 1 + |ContentBytes(content)|
  }

  /** The packet of write_response; msg_len is the low byte of a size_t. */
  function Packet(code: Byte, session: nat, msg: Text, content: Option<Content>): Text {
    [code, 0] + Be(session, 4) + Be(PayloadLen(msg, content), 8) + [|msg| % 0x100] + msg + ContentBytes(content)
  }

  /** The packet of a reply: code, message, session and content. */
  function ReplyPacket(messages: Messages, r: Reply): Text {
    Packet(r.code, r.session, messages(r.code), r.content)
  }

  /** write_response: one buffer, sent as message part and data part with their own limits. Either all of
      the packet goes out or, when a write fails, a proper part of it from the start. */
  method WriteResponse(conn: Socket, code: Byte, session: nat, msg: Text, content: Option<Content>)
    returns (ok: bool, messageCalls: seq<WriteCall>, dataCalls: seq<WriteCall>)
    modifies conn`outgoing
    ensures ok ==> conn.outgoing == old(conn.outgoing) + Packet(code, session, msg, content)
    ensures !ok ==> exists k | 0 <= k < |Packet(code, session, msg, content)| ::
      conn.outgoing == old(conn.outgoing) + Packet(code, session, msg, content)[..k]
    ensures forall i | 0 <= i < |messageCalls| ::
      messageCalls[i].size <= MAX_MSG_SIZE && messageCalls[i].offset + messageCalls[i].size <= BASE_SIZE + |msg|
    ensures forall i | 0 <= i < |dataCalls| ::
      dataCalls[i].size <= MAX_FILE_SIZE && BASE_SIZE + |msg| <= dataCalls[i].offset
  {
    hide Packet;
    var data := ContentBytes(content);
    var buffer := BuildPacket(code, session, msg, content);
    var stream := buffer[..];
    ghost var before := conn.outgoing;
    var split := |stream| - |data|;
    dataCalls := [];
    ok, messageCalls := conn.SendRange(stream, 0, split, MAX_MSG_SIZE);
    if !ok {
      ghost var k :| 0 <= k < split && conn.outgoing == before + stream[0..k];
      assert stream[0..k] == stream[..k];
      return;
    }
    if |data| > 0 {
      ok, dataCalls := conn.SendRange(stream, split, |stream|, MAX_FILE_SIZE);
      if !ok {
        ghost var k :| split <= k < |stream| && conn.outgoing == before + stream[0..split] + stream[split..k];
        assert before + stream[0..split] + stream[split..k] == before + stream[..k];
        return;
      }
    }
    assert stream[0..split] + stream[split..] == stream;
    assert before + stream[0..split] + stream[split..|stream|] == before + stream;
  }

  /** Where every field of a response lies. */
  lemma PacketFields(code: Byte, session: nat, msg: Text, content: Option<Content>)
    ensures var p := Packet(code, session, msg, content);
      && |p| == BASE_SIZE + |msg| + |ContentBytes(content)|
      && HasAt(p, 0, [code]) && HasAt(p, 1, [0]) && HasAt(p, 2, Be(session, 4))
      && HasAt(p, 6, Be(PayloadLen(msg, content), 8)) && HasAt(p, 14, [|msg| % 0x100]) && HasAt(p, 15, msg)
      && HasAt(p, 15 + |msg|, ContentBytes(content))
  {
    hide Be, PayloadLen, ContentBytes;
  }

  lemma ContentFields(packet: Text, offset: nat, c: Content)
    requires HasAt(packet, offset, c.digest + c.stream)
    ensures HasAt(packet, offset, c.digest) && HasAt(packet, offset + |c.digest|, c.stream)
  {
    var both := packet[offset..offset + |c.digest + c.stream|];
    assert both[..|c.digest|] == c.digest && both[|c.digest|..] == c.stream;
  }

  /** The memcpy sequence of write_response: every field is copied to the offset after the one before, inside a
      buffer of the size computed beforehand, and the last copy ends where the buffer does. */
  method BuildPacket(code: Byte, session: nat, msg: Text, content: Option<Content>) returns (stream: array<Byte>)
    ensures fresh(stream) && stream.Length == BASE_SIZE + |msg| + |ContentBytes(content)|
    ensures stream[..] == Packet(code, session, msg, content)
  {
    hide Be, Packet, HasAt;
    var pktMsgSize, payloadLen := BASE_SIZE + |msg|, |msg| + 1;
    if content.Some? {
      pktMsgSize := pktMsgSize + |content.value.stream| + |content.value.digest|;
      payloadLen := payloadLen + |content.value.stream| + |content.value.digest|;
    }
    stream := new Byte[pktMsgSize](_ => NUL);
    ghost var packet := Packet(code, session, msg, content);
    PacketFields(code, session, msg, content);
    var offset := CopyNext(stream, 0, [code], packet);
    offset := CopyNext(stream, offset, [0], packet);
    offset := CopyNext(stream, offset, Be(session, 4), packet);
    offset := CopyNext(stream, offset, Be(payloadLen, 8), packet);
    offset := CopyNext(stream, offset, [|msg| % 0x100], packet);
    offset := CopyNext(stream, offset, msg, packet);
    offset := CopyContent(stream, offset, content, packet);
    assert offset == stream.Length;
    assert stream[..offset] == stream[..] && packet[..offset] == packet;
  }

  /** The digest and the stream, if there is content. */
  method CopyContent(stream: array<Byte>, offset: nat, content: Option<Content>, ghost packet: Text) returns (next: nat)
    requires |packet| == stream.Length && HasAt(packet, offset, ContentBytes(content))
    requires offset <= |packet| && stream[..offset] == packet[..offset]
    modifies stream
    ensures next == offset + |ContentBytes(content)| <= stream.Length && stream[..next] == packet[..next]
  {
    hide HasAt;
    next := offset;
    if content.Some? {
      ContentFields(packet, offset, content.value);
      next := CopyNext(stream, next, content.value.digest, packet);
      next := CopyNext(stream, next, content.value.stream, packet);
    }
  }

  /** One memcpy at the offset, of the bytes the packet has there. */
  method CopyNext(stream: array<Byte>, offset: nat, bytes: Text, ghost packet: Text) returns (next: nat)
    requires |packet| == stream.Length && HasAt(packet, offset, bytes)
    requires offset <= |packet| && stream[..offset] == packet[..offset]
    modifies stream
    ensures next == offset + |bytes| <= stream.Length && stream[..next] == packet[..next]
  {
    Memcpy(stream, offset, bytes);
    next := offset + |bytes|;
    assert stream[..next] == packet[..offset] + bytes;
    assert packet[..next] == packet[..offset] + packet[offset..next];
  }

  // ----- the client's reading -----

  /** ServerResponse. */
  datatype Response = Response(
    returnCode: Byte, sessionId: nat, payloadLen: nat, msgLen: nat, msg: Text,
    digest: Option<Text>, payload: Option<Text>)

  /** payload_len - (msg_len + 1 + 32), which may be negative. */
  function StreamSize(payloadLen: nat, msgLen: nat): int {
    payloadLen - (msgLen + 1 + SHA256_DIGEST_LENGTH)
  }

  function ReadContent(code: Byte, payloadLen: nat, msgLen: nat, s: Text): Option<(Option<Text>, Option<Text>, Text)> {
    if code == OP_SUCCESS && StreamSize(payloadLen, msgLen) > 0 then
      match Take(s, SHA256_DIGEST_LENGTH)
      case None => None
      case Some((digest, r)) =>
        match Take(r, StreamSize(payloadLen, msgLen))
        case None => None
        case Some((payload, rest)) => Some((Some(digest), Some(payload), rest))
    else Some((None, None, s))
  }

  /** connect, after the request was sent: the response and what it leaves in the stream. */
  function ReadResponse(s: Text): Option<(Response, Text)> {
    if |s| < BASE_SIZE then None else
      var session, payloadLen, msgLen := FromBe(s[2..6]), FromBe(s[6..14]), s[14];
      match Take(s[15..], msgLen)
      case None => None
      case Some((msg, r)) =>
        match ReadContent(s[0], payloadLen, msgLen, r)
        case None => None
        case Some((digest, payload, rest)) =>
          Some((Response(s[0], session, payloadLen, msgLen, msg, digest, payload), rest))
  }

  /** connect reads field by field from a socket that delivers in pieces, and keeps the session id. */
  method Connect(conn: Socket) returns (resp: Response, session: nat)
    requires ReadResponse(conn.incoming).Some?
    modifies conn`incoming
    ensures Some((resp, conn.incoming)) == ReadResponse(old(conn.incoming))
    ensures session == resp.sessionId
  {
    hide FromBe;
    ghost var s := conn.incoming;
    var returnCode := conn.ReadExactly(1);
    var reserved := conn.ReadExactly(1);
    assert conn.incoming == s[2..];
    var sessionId := conn.ReadExactly(4);
    assert sessionId == s[2..6] && conn.incoming == s[6..];
    var payloadLen := conn.ReadExactly(8);
    assert payloadLen == s[6..14] && conn.incoming == s[14..];
    var msgLen := conn.ReadExactly(1);
    assert msgLen[0] == s[14] && conn.incoming == s[15..];
    var msg := conn.ReadExactly(msgLen[0]);
    var digest, payload := None, None;
    if returnCode[0] == OP_SUCCESS {
      var streamSize := FromBe(payloadLen) - (msgLen[0] + 1 + SHA256_DIGEST_LENGTH);
      if streamSize > 0 {
        var d := conn.ReadExactly(SHA256_DIGEST_LENGTH);
        var p := conn.ReadExactly(streamSize);
        digest, payload := Some(d), Some(p);
      }
    }
    session := FromBe(sessionId);
    resp := Response(returnCode[0], session, FromBe(payloadLen), msgLen[0], msg, digest, payload);
  }

  // ----- the round trip -----

  function MeantResponse(code: Byte, session: nat, msg: Text, content: Option<Content>): Response {
    Response(code, session, PayloadLen(msg, content), |msg|, msg,
             (match content case None => None case Some(c) => Some(c.digest)),
             (match content case None => None case Some(c) => Some(c.stream)))
  }

  lemma ReadPacketHead(code: Byte, session: nat, msg: Text, content: Option<Content>, s: Text)
    requires |msg| < 0x100 && session < SESSION_LIMIT && PayloadLen(msg, content) < Pow256(8)
    ensures var t := Packet(code, session, msg, content) + s;
      && |t| >= BASE_SIZE && t[0] == code && FromBe(t[2..6]) == session
      && FromBe(t[6..14]) == PayloadLen(msg, content) && t[14] == |msg|
      && t[15..] == msg + (ContentBytes(content) + s)
  {
    hide Be, FromBe, Pow256, ContentBytes, PayloadLen;
    Widths();
    var t := Packet(code, session, msg, content) + s;
    FromBeOfBe(session, 4);
    FromBeOfBe(PayloadLen(msg, content), 8);
    assert t[2..6] == Be(session, 4);
    assert t[6..14] == Be(PayloadLen(msg, content), 8);
    assert t[15..] == msg + (ContentBytes(content) + s);
  }

  lemma ReadContentOf(code: Byte, msg: Text, content: Option<Content>, s: Text)
    requires content.Some? ==> |content.value.digest| == SHA256_DIGEST_LENGTH
    ensures ReadContent(code, PayloadLen(msg, content), |msg|, ContentBytes(content) + s)
         == Some((MeantResponse(code, 0, msg, content).digest, MeantResponse(code, 0, msg, content).payload, s))
       <==> content.None? || (code == OP_SUCCESS && content.value.stream != [])
  {
    match content
    case None =>
      assert [] + s == s;
    case Some(c) =>
      if code == OP_SUCCESS && c.stream != [] {
        assert (c.digest + c.stream) + s == c.digest + (c.stream + s);
        TakeConcat(c.digest, c.stream + s);
        TakeConcat(c.stream, s);
      }
  }

  /** The client recovers code, session, message, digest and stream, and leaves nothing of the packet
      unread, exactly when no content was attached or it was non-empty content of a success. */
  lemma ResponseRoundTrip(code: Byte, session: nat, msg: Text, content: Option<Content>, s: Text)
    requires |msg| < 0x100 && session < SESSION_LIMIT && PayloadLen(msg, content) < Pow256(8)
    requires content.Some? ==> |content.value.digest| == SHA256_DIGEST_LENGTH
    ensures ReadResponse(Packet(code, session, msg, content) + s)
         == Some((MeantResponse(code, session, msg, content), s))
       <==> content.None? || (code == OP_SUCCESS && content.value.stream != [])
  {
    hide Packet, FromBe, Pow256, ReadContent, ContentBytes, PayloadLen, Take;
    ReadPacketHead(code, session, msg, content, s);
    TakeConcat(msg, ContentBytes(content) + s);
    ReadContentOf(code, msg, content, s);
  }

  // ----- checking and saving -----

  /** _hash: the hasher is fed 1024 bytes at a time and so sees the whole payload. */
  method HashPayload(sha: Hasher, payload: Text) returns (digest: Text)
    ensures digest == sha(payload)
  {
    var fed: Text := [];
    var pos := 0;
    while pos < |payload|
      invariant pos >= |payload| ==> fed == payload
      invariant pos < |payload| ==> fed == payload[..pos]
    {
      var end := if pos + 1024 < |payload| then pos + 1024 else |payload|;
      fed := fed + payload[pos..end];
      pos := pos + 1024;
    }
    digest := sha(fed);
  }

  /** ServerResponse.valid_hash. */
  predicate ValidHash(sha: Hasher, r: Response) {
    r.digest.Some? && r.payload.Some? && r.digest.value == sha(r.payload.value)
  }

  /** What reaches save_file with a valid hash is never empty, so its chunk size is never zero. */
  lemma SavedPayloadNotEmpty(sha: Hasher, s: Text)
    ensures ReadResponse(s).Some? && ValidHash(sha, ReadResponse(s).value.0) ==>
      |ReadResponse(s).value.0.payload.value| > 0
  {
    hide FromBe;
  }
}
