/** The reading half of server_sock.c, over a socket whose bytes arrive in pieces. */
module ServerSock {
  import opened Bytes
  import opened Codes
  import opened ByteOrder
  import opened Crypto
  import opened Streams
  import opened Protocol
  import opened Requests

  // ----- make_byte_array -----

  /** What calloc is asked for: two bytes for each of a string, as the terminator's byte is added to the size of an
      element. So the terminator is inside what was asked for exactly for a non-empty string. */
  function Asked(arrayLen: nat, makeString: bool): (size: nat)
    ensures makeString ==> (arrayLen < size <==> arrayLen != 0)
  {
    arrayLen * (if makeString then 2 else 1)
  }

  /** The usable bytes of the smallest block the GNU C library hands out. */
  const SMALLEST_BLOCK := 24

  /** calloc, as that library does it: at least the smallest block, zeroed. */
  method Calloc(size: nat) returns (p: array<Byte>)
    ensures fresh(p) && size <= p.Length && SMALLEST_BLOCK <= p.Length
    ensures forall k | 0 <= k < p.Length :: p[k] == NUL
  {
    p := new Byte[if size < SMALLEST_BLOCK then SMALLEST_BLOCK else size](_ => NUL);
  }

  /** What the C functions see of a terminated copy is what they see of the bytes. */
  lemma TerminatedCString(buffer: Text, s: Text)
    requires s + [NUL] <= buffer
    ensures CString(buffer) == CString(s)
  {
    var k := Find(s, NUL);
    assert buffer[..|s| + 1] == s + [NUL];
    assert forall j | 0 <= j < k :: buffer[j] == s[j];
    assert buffer[k] == NUL;
    FindIs(buffer, NUL, k);
    assert buffer[..k] == s[..k];
  }

  /** make_byte_array: an array of that many bytes from the stream, for a string with a terminator behind them; no
      array for no bytes, unless a string is wanted. */
  method MakeByteArray(conn: Socket, arrayLen: nat, makeString: bool) returns (res: Byte, p: array?<Byte>)
    modifies conn`incoming
    ensures match Take(old(conn.incoming), arrayLen)
            case Some((taken, rest)) =>
              && res == OP_SUCCESS && conn.incoming == rest
              && (p == null <==> arrayLen == 0 && !makeString) && (p == null ==> taken == [])
              && (p != null ==> fresh(p) && arrayLen <= p.Length && p[..arrayLen] == taken)
              && (makeString ==> arrayLen < p.Length && p[arrayLen] == NUL && CString(p[..]) == CString(taken))
            case None => res == EndingCode(conn.ending) && res != OP_SUCCESS && conn.incoming == []
  {
    hide CString;
    p := null;
    if arrayLen == 0 && !makeString {
      return OP_SUCCESS, null;
    }
    var block := Calloc(Asked(arrayLen, makeString));
    var bytes;
    res, bytes := conn.ReadStream(arrayLen);
    if res != OP_SUCCESS {
      return;
    }
    Memcpy(block, 0, bytes);
    if makeString {
      block[arrayLen] := NUL;
      assert block[..arrayLen + 1] == bytes + [NUL];
      TerminatedCString(block[..], bytes);
    }
    assert block[..arrayLen] == bytes;
    p := block;
  }

  /** A string of that many bytes: what was read of it, up to its terminator. */
  method MakeString(conn: Socket, arrayLen: nat) returns (res: Byte, bytes: Text)
    modifies conn`incoming
    ensures match Take(old(conn.incoming), arrayLen)
            case Some((taken, rest)) => res == OP_SUCCESS && bytes == taken && conn.incoming == rest
            case None => res == EndingCode(conn.ending) && res != OP_SUCCESS && conn.incoming == []
  {
    bytes := [];
    var p;
    res, p := MakeByteArray(conn, arrayLen, true);
    if res == OP_SUCCESS {
      bytes := p[..arrayLen];
    }
  }

  /** A two-byte length in network order and that many bytes of a string. */
  method ReadSizedArray(conn: Socket) returns (res: Byte, bytes: Text)
    modifies conn`incoming
    ensures match ReadSized(old(conn.incoming))
            case Some((taken, rest)) => res == OP_SUCCESS && bytes == taken && conn.incoming == rest
            case None => res == EndingCode(conn.ending) && res != OP_SUCCESS && conn.incoming == []
  {
    hide FromBe;
    var len: Text;
    res, len := conn.ReadStream(2);
    if res != OP_SUCCESS {
      return res, [];
    }
    res, bytes := MakeString(conn, FromBe(len));
  }

  /** read_client_user_payload. */
  method ReadClientUserPayload(conn: Socket, payloadLen: nat) returns (res: Byte, body: Option<Body>)
    modifies conn`incoming
    ensures match ReadUserPayload(payloadLen, old(conn.incoming))
            case Some((b, rest)) => res == OP_SUCCESS && body == Some(b) && conn.incoming == rest
            case None => res == EndingCode(conn.ending) && res != OP_SUCCESS && body == None && conn.incoming == []
  {
    hide ReadSized, Take;
    ghost var s := conn.incoming;
    body := None;
    var flag, perm, name, passwd: Text;
    res, flag := conn.ReadStream(1);
    if res != OP_SUCCESS {
      return;
    }
    res, perm := conn.ReadStream(1);
    if res != OP_SUCCESS {
      return;
    }
    assert conn.incoming == s[2..];
    res, name := ReadSizedArray(conn);
    if res != OP_SUCCESS {
      return;
    }
    if UserPayloadHasPassword(payloadLen, |name|) {
      res, passwd := ReadSizedArray(conn);
      if res != OP_SUCCESS {
        return;
      }
      body := Some(User(flag[0], perm[0], name, Some(passwd)));
    } else {
      body := Some(User(flag[0], perm[0], name, None));
    }
  }

  /** read_client_std_payload. */
  method ReadClientStdPayload(conn: Socket, payloadLen: nat) returns (res: Byte, body: Option<Body>)
    modifies conn`incoming
    ensures match ReadStdPayload(payloadLen, old(conn.incoming))
            case Some((b, rest)) => res == OP_SUCCESS && body == Some(b) && conn.incoming == rest
            case None => res == EndingCode(conn.ending) && res != OP_SUCCESS && body == None && conn.incoming == []
  {
    hide ReadSized, Take;
    body := None;
    var path;
    res, path := ReadSizedArray(conn);
    if res != OP_SUCCESS {
      return;
    }
    if StdPayloadHasFile(payloadLen, |path|) {
      var hash, stream;
      res, hash := MakeByteArray(conn, SHA256_DIGEST_LENGTH, false);
      if res != OP_SUCCESS {
        return;
      }
      var streamLen := FileStreamSize(payloadLen, |path|);
      res, stream := MakeByteArray(conn, streamLen, false);
      if res != OP_SUCCESS {
        return;
      }
      var bytes := if stream == null then None else Some(stream[..streamLen]);
      body := Some(Std(path, Some(hash[..SHA256_DIGEST_LENGTH]), bytes));
    } else {
      body := Some(Std(path, None, None));
    }
  }

  /** The fixed part of the header; the session id stays 0 until all of it was read. */
  method ReadFixedHeader(conn: Socket) returns (res: Byte, head: Head)
    modifies conn`incoming
    ensures match ReadHead(old(conn.incoming))
            case Some((h, rest)) => res == OP_SUCCESS && head == h && conn.incoming == rest
            case None =>
              res == EndingCode(conn.ending) && res != OP_SUCCESS && head.sessionId == 0 && conn.incoming == []
  {
    hide FromBe;
    ghost var s := conn.incoming;
    head := Head(0, 0, 0, 0, 0);
    var optCode, userFlag, reserved, usernameLen, passwdLen, session: Text;
    res, optCode := conn.ReadStream(1);
    if res != OP_SUCCESS {
      return;
    }
    res, userFlag := conn.ReadStream(1);
    if res != OP_SUCCESS {
      return;
    }
    res, reserved := conn.ReadStream(2);
    if res != OP_SUCCESS {
      return;
    }
    assert conn.incoming == s[4..];
    res, usernameLen := conn.ReadStream(2);
    if res != OP_SUCCESS {
      return;
    }
    assert usernameLen == s[4..6] && conn.incoming == s[6..];
    res, passwdLen := conn.ReadStream(2);
    if res != OP_SUCCESS {
      return;
    }
    assert passwdLen == s[6..8] && conn.incoming == s[8..];
    res, session := conn.ReadStream(4);
    if res != OP_SUCCESS {
      return;
    }
    assert session == s[8..12] && conn.incoming == s[12..];
    head := Head(optCode[0], userFlag[0], FromBe(usernameLen), FromBe(passwdLen), FromBe(session));
  }

  /** read_client_req: the request and the unread rest of the stream, or, when the stream ends first, the
      code of its ending and the session id as far as it was read. */
  method ReadClientReq(conn: Socket) returns (res: Byte, req: Option<WirePayload>, session: nat)
    modifies conn`incoming
    ensures match ReadRequest(old(conn.incoming))
            case Parsed(parsed, rest) =>
              res == OP_SUCCESS && req == Some(parsed) && conn.incoming == rest && session == parsed.sessionId
            case Unread(id) =>
              res == EndingCode(conn.ending) && res != OP_SUCCESS && req == None && session == id && conn.incoming == []
  {
    hide ReadHead, ReadUserPayload, ReadStdPayload, FromBe;
    req := None;
    var head: Head;
    res, head := ReadFixedHeader(conn);
    session := head.sessionId;
    if res != OP_SUCCESS {
      return;
    }
    var username, passwd, len: Text;
    res, username := MakeString(conn, head.usernameLen);
    if res != OP_SUCCESS {
      return;
    }
    res, passwd := MakeString(conn, head.passwdLen);
    if res != OP_SUCCESS {
      return;
    }
    res, len := conn.ReadStream(8);
    if res != OP_SUCCESS {
      return;
    }
    var payloadLen := FromBe(len);
    var body := Some(NoBody);
    if head.optCode == ACT_USER_OPERATION {
      res, body := ReadClientUserPayload(conn, payloadLen);
    } else if head.optCode != ACT_LOCAL_OPERATION {
      res, body := ReadClientStdPayload(conn, payloadLen);
    }
    if res != OP_SUCCESS {
      return;
    }
    req := Some(WirePayload(head.optCode, head.userFlag, session, username, passwd, payloadLen, body.value));
  }
}
