/** The request packet: client_request builds it in Python, read_client_req takes it apart in C. */
module Requests {
  import opened Bytes
  import opened Codes
  import opened ByteOrder
  import opened Crypto
  import opened Streams
  import opened Protocol
  import Utf8

  // ----- the client's side -----

  /** The fields of ClientRequest that reach the wire. `path` is the destination, for PUT already joined
      with the source's name; `payload` is the content of the source file. */
  datatype Client = Client(
    action: Byte, userFlag: Byte, perm: Byte, sessionId: nat,
    username: string, password: string, otherUsername: string, otherPassword: string,
    path: string, payload: Text)

  /** user_payload. */
  function UserPayload(c: Client): Text {
    [c.userFlag, c.perm] + Be(|c.otherUsername|, 2) + Utf8.Encode(c.otherUsername)
    + (if c.userFlag == USR_ACT_CREATE_USER then Be(|c.otherPassword|, 2) + Utf8.Encode(c.otherPassword) else [])
  }

  /** std_payload. */
  function StdPayload(sha: Hasher, c: Client): Text {
    Be(|c.path|, 2) + Utf8.Encode(c.path)
    + (if c.action == ACT_PUT_REMOTE_FILE then sha(c.payload) + c.payload else [])
  }

  function Payload(sha: Hasher, c: Client): Text {
    if c.action == ACT_LOCAL_OPERATION then []
    else if c.action == ACT_USER_OPERATION then UserPayload(c)
    else StdPayload(sha, c)
  }

  /** struct.pack raises when a number does not fit its field. */
  predicate Packs(sha: Hasher, c: Client) {
    && |c.username| < 0x1_0000 && |c.password| < 0x1_0000 && c.sessionId < SESSION_LIMIT
    && (if c.action == ACT_LOCAL_OPERATION then true
        else if c.action == ACT_USER_OPERATION then
          |c.otherUsername| < 0x1_0000 && (c.userFlag == USR_ACT_CREATE_USER ==> |c.otherPassword| < 0x1_0000)
        else |c.path| < 0x1_0000)
    && |Payload(sha, c)| < Pow256(8)
  }

  function Header(c: Client): Text {
    [c.action, c.userFlag] + Be(0, 2) + Be(|c.username|, 2) + Be(|c.password|, 2) + Be(c.sessionId, 4)
  }

  /** The bytes of client_request, or None where it raises. */
  function Request(sha: Hasher, c: Client): Option<Text> {
    if !Packs(sha, c) then None else
      Some(Header(c) + Utf8.Encode(c.username) + Utf8.Encode(c.password) + Be(|Payload(sha, c)|, 8) + Payload(sha, c))
  }

  // ----- the server's side -----

  datatype Head = Head(optCode: Byte, userFlag: Byte, usernameLen: nat, passwdLen: nat, sessionId: nat)

  function ReadHead(s: Text): Option<(Head, Text)> {
    if |s| < 12 then None
    else Some((Head(s[0], s[1], FromBe(s[4..6]), FromBe(s[6..8]), FromBe(s[8..12])), s[12..]))
  }

  /** user_payload_has_password. */
  predicate UserPayloadHasPassword(payloadLen: nat, usernameLen: nat) {
    payloadLen > 4 + usernameLen
  }

  /** std_payload_has_file: the subtraction is unsigned and wraps. */
  predicate StdPayloadHasFile(payloadLen: nat, pathLen: nat) {
    (payloadLen - pathLen) % 0x1_0000_0000_0000_0000 >= SHA256_DIGEST_LENGTH
  }

  /** get_file_stream_size. */
  function FileStreamSize(payloadLen: nat, pathLen: nat): nat {
    if payloadLen < pathLen + SHA256_DIGEST_LENGTH + 2 then 0 else payloadLen - (pathLen + SHA256_DIGEST_LENGTH + 2)
  }

  /** A two-byte length and that many bytes. */
  function ReadSized(s: Text): Option<(Text, Text)> {
    if |s| < 2 then None else Take(s[2..], FromBe(s[..2]))
  }

  function ReadUserPayload(payloadLen: nat, s: Text): Option<(Body, Text)> {
    if |s| < 2 then None
    else match ReadSized(s[2..])
      case None => None
      case Some((name, r)) =>
        if !UserPayloadHasPassword(payloadLen, |name|) then Some((User(s[0], s[1], name, None), r))
        else match ReadSized(r)
          case None => None
          case Some((passwd, rest)) => Some((User(s[0], s[1], name, Some(passwd)), rest))
  }

  /** An empty file leaves p_byte_stream NULL: make_byte_array returns before it allocates. */
  function ReadStdPayload(payloadLen: nat, s: Text): Option<(Body, Text)> {
    match ReadSized(s)
    case None => None
    case Some((path, r)) =>
      if !StdPayloadHasFile(payloadLen, |path|) then Some((Std(path, None, None), r))
      else match Take(r, SHA256_DIGEST_LENGTH)
        case None => None
        case Some((hash, r1)) =>
          match Take(r1, FileStreamSize(payloadLen, |path|))
          case None => None
          case Some((stream, rest)) =>
            Some((Std(path, Some(hash), if stream == [] then None else Some(stream)), rest))
  }

  function ReadBody(optCode: Byte, payloadLen: nat, s: Text): Option<(Body, Text)> {
    if optCode == ACT_USER_OPERATION then ReadUserPayload(payloadLen, s)
    else if optCode == ACT_LOCAL_OPERATION then Some((NoBody, s))
    else ReadStdPayload(payloadLen, s)
  }

  /** `Unread` carries the session id as far as it was read. */
  datatype ReadResult = Parsed(req: WirePayload, rest: Text) | Unread(session: nat)

  function ReadRest(h: Head, s: Text): ReadResult {
    match Take(s, h.usernameLen)
    case None => Unread(h.sessionId)
    case Some((username, s1)) =>
      match Take(s1, h.passwdLen)
      case None => Unread(h.sessionId)
      case Some((passwd, s2)) =>
        match Take(s2, 8)
        case None => Unread(h.sessionId)
        case Some((len, s3)) =>
          match ReadBody(h.optCode, FromBe(len), s3)
          case None => Unread(h.sessionId)
          case Some((body, rest)) =>
            Parsed(WirePayload(h.optCode, h.userFlag, h.sessionId, username, passwd, FromBe(len), body), rest)
  }

  /** read_client_req on the bytes of a connection. */
  function ReadRequest(s: Text): (r: ReadResult)
    ensures r.Parsed? ==> WellTyped(r.req)
  {
    match ReadHead(s)
    case None => Unread(0)
    case Some((h, r)) => ReadRest(h, r)
  }

  // ----- the round trip -----

  /** What the client means the server to receive. */
  function MeantBody(sha: Hasher, c: Client): Body {
    if c.action == ACT_LOCAL_OPERATION then NoBody
    else if c.action == ACT_USER_OPERATION then
      User(c.userFlag, c.perm, Utf8.Encode(c.otherUsername),
           if c.userFlag == USR_ACT_CREATE_USER then Some(Utf8.Encode(c.otherPassword)) else None)
    else if c.action == ACT_PUT_REMOTE_FILE then
      Std(Utf8.Encode(c.path), Some(sha(c.payload)), if c.payload == [] then None else Some(c.payload))
    else Std(Utf8.Encode(c.path), None, None)
  }

  function Meant(sha: Hasher, c: Client): WirePayload {
    WirePayload(c.action, c.userFlag, c.sessionId, Utf8.Encode(c.username), Utf8.Encode(c.password),
                |Payload(sha, c)|, MeantBody(sha, c))
  }

  /** Every text the packet carries is ASCII. */
  predicate AsciiBody(c: Client) {
    if c.action == ACT_LOCAL_OPERATION then true
    else if c.action == ACT_USER_OPERATION then
      Utf8.IsAscii(c.otherUsername) && (c.userFlag == USR_ACT_CREATE_USER ==> Utf8.IsAscii(c.otherPassword))
    else Utf8.IsAscii(c.path)
  }

  predicate AsciiRequest(c: Client) {
    Utf8.IsAscii(c.username) && Utf8.IsAscii(c.password) && AsciiBody(c)
  }

  lemma ReadHeadOfHeader(c: Client, s: Text)
    requires |c.username| < 0x1_0000 && |c.password| < 0x1_0000 && c.sessionId < SESSION_LIMIT
    ensures ReadHead(Header(c) + s) == Some((Head(c.action, c.userFlag, |c.username|, |c.password|, c.sessionId), s))
  {
    hide Be, FromBe, Pow256;
    Widths();
    var t := Header(c) + s;
    FromBeOfBe(|c.username|, 2);
    FromBeOfBe(|c.password|, 2);
    FromBeOfBe(c.sessionId, 4);
    assert t[4..6] == Be(|c.username|, 2);
    assert t[6..8] == Be(|c.password|, 2);
    assert t[8..12] == Be(c.sessionId, 4);
    assert t[12..] == s;
  }

  /** A sized text is read back whole exactly when the characters counted are the bytes sent. */
  lemma ReadSizedText(text: string, s: Text)
    requires |text| < 0x1_0000
    ensures Utf8.IsAscii(text) ==>
      ReadSized(Be(|text|, 2) + (Utf8.Encode(text) + s)) == Some((Utf8.Encode(text), s))
    ensures !Utf8.IsAscii(text) ==>
      var r := ReadSized(Be(|text|, 2) + (Utf8.Encode(text) + s)); r.Some? && r.value.0 != Utf8.Encode(text)
  {
    hide Be, FromBe, Pow256, Utf8.Encode, Utf8.IsAscii;
    Widths();
    FromBeOfBe(|text|, 2);
    Utf8.LengthIffAscii(text);
    var t := Be(|text|, 2) + (Utf8.Encode(text) + s);
    assert t[..2] == Be(|text|, 2) && t[2..] == Utf8.Encode(text) + s;
    if Utf8.IsAscii(text) {
      TakeConcat(Utf8.Encode(text), s);
    } else {
      assert |(Utf8.Encode(text) + s)[..|text|]| == |text|;
    }
  }

  lemma ReadUserPayloadOf(c: Client, s: Text)
    requires |c.otherUsername| < 0x1_0000
    requires c.userFlag == USR_ACT_CREATE_USER ==> |c.otherPassword| < 0x1_0000
    ensures var n := |UserPayload(c)|;
            var meant := User(c.userFlag, c.perm, Utf8.Encode(c.otherUsername),
              if c.userFlag == USR_ACT_CREATE_USER then Some(Utf8.Encode(c.otherPassword)) else None);
            var ascii := Utf8.IsAscii(c.otherUsername)
              && (c.userFlag == USR_ACT_CREATE_USER ==> Utf8.IsAscii(c.otherPassword));
            ReadUserPayload(n, UserPayload(c) + s) == Some((meant, s)) <==> ascii
  {
    hide Be, FromBe, Utf8.Encode, Utf8.IsAscii, ReadSized;
    var name := Utf8.Encode(c.otherUsername);
    var tail :=
      if c.userFlag == USR_ACT_CREATE_USER then Be(|c.otherPassword|, 2) + Utf8.Encode(c.otherPassword) else [];
    var t := UserPayload(c) + s;
    assert t[2..] == Be(|c.otherUsername|, 2) + (name + (tail + s));
    ReadSizedText(c.otherUsername, tail + s);
    Utf8.LengthIffAscii(c.otherUsername);
    if c.userFlag == USR_ACT_CREATE_USER {
      ReadSizedText(c.otherPassword, s);
      assert tail + s == Be(|c.otherPassword|, 2) + (Utf8.Encode(c.otherPassword) + s);
    } else {
      assert tail + s == s;
    }
  }

  /** The tests on payload_len see the tail exactly when there is one. */
  lemma TailTests(pathLen: nat, size: nat)
    requires pathLen + 2 + SHA256_DIGEST_LENGTH + size < 0x1_0000_0000_0000_0000
    ensures !StdPayloadHasFile(pathLen + 2, pathLen)
    ensures StdPayloadHasFile(pathLen + 2 + SHA256_DIGEST_LENGTH + size, pathLen)
    ensures FileStreamSize(pathLen + 2 + SHA256_DIGEST_LENGTH + size, pathLen) == size
  {
  }

  lemma Regroup(a: Text, b: Text, c: Text, d: Text, e: Text, s: Text)
    ensures a + b + c + d + e + s == a + (b + (c + (d + (e + s))))
    ensures a + b + (c + d) + s == a + (b + (c + (d + s)))
  {
    assert a + b + c + d + e + s == a + b + c + d + (e + s);
    assert a + b + c + d + (e + s) == a + b + c + (d + (e + s));
    assert a + b + c + (d + (e + s)) == a + b + (c + (d + (e + s)));
    assert a + b + (c + (d + (e + s))) == a + (b + (c + (d + (e + s))));
    assert a + b + (c + d) + s == a + b + (c + (d + s));
    assert a + b + (c + (d + s)) == a + (b + (c + (d + s)));
  }

  lemma ReadPutPayload(digest: Text, path: Text, data: Text, s: Text)
    requires |digest| == SHA256_DIGEST_LENGTH
    requires |path| + 2 + SHA256_DIGEST_LENGTH + |data| < 0x1_0000_0000_0000_0000
    requires ReadSized(Be(|path|, 2) + (path + (digest + (data + s)))) == Some((path, digest + (data + s)))
    ensures ReadStdPayload(|path| + 2 + SHA256_DIGEST_LENGTH + |data|, Be(|path|, 2) + (path + (digest + (data + s))))
         == Some((Std(path, Some(digest), if data == [] then None else Some(data)), s))
  {
    hide Be, FromBe, ReadSized, StdPayloadHasFile, FileStreamSize, Take;
    TailTests(|path|, |data|);
    TakeConcat(digest, data + s);
    TakeConcat(data, s);
  }

  lemma ReadPathPayload(path: Text, s: Text)
    requires |path| < 0x1_0000
    requires ReadSized(Be(|path|, 2) + (path + s)) == Some((path, s))
    ensures ReadStdPayload(|path| + 2, Be(|path|, 2) + (path + s)) == Some((Std(path, None, None), s))
  {
    hide Be, FromBe, ReadSized, StdPayloadHasFile, FileStreamSize, Take;
    TailTests(|path|, 0);
  }

  lemma ReadStdPayloadOf(sha: Hasher, c: Client, s: Text)
    requires |c.path| < 0x1_0000 && c.action != ACT_LOCAL_OPERATION && c.action != ACT_USER_OPERATION
    requires |StdPayload(sha, c)| < 0x1_0000_0000_0000_0000
    ensures ReadStdPayload(|StdPayload(sha, c)|, StdPayload(sha, c) + s) == Some((MeantBody(sha, c), s))
       <==> Utf8.IsAscii(c.path)
  {
    hide Be, FromBe, Utf8.Encode, Utf8.IsAscii, ReadSized, Take, ReadStdPayload;
    var path := Utf8.Encode(c.path);
    Utf8.LengthIffAscii(c.path);
    if !Utf8.IsAscii(c.path) {
      WrongPathRead(sha, c, s);
    } else if c.action == ACT_PUT_REMOTE_FILE {
      var digest := sha(c.payload);
      Regroup(Be(|path|, 2), path, digest, c.payload, [], s);
      assert (digest + c.payload) + [] == digest + c.payload;
      ReadSizedText(c.path, digest + (c.payload + s));
      ReadPutPayload(digest, path, c.payload, s);
    } else {
      assert [] + s == s;
      Regroup(Be(|path|, 2), path, [], [], [], s);
      ReadSizedText(c.path, s);
      ReadPathPayload(path, s);
    }
  }

  lemma WrongPathRead(sha: Hasher, c: Client, s: Text)
    requires |c.path| < 0x1_0000 && !Utf8.IsAscii(c.path)
    ensures forall n: nat ::
      var r := ReadStdPayload(n, StdPayload(sha, c) + s);
      r.Some? ==> r.value.0.Std? && r.value.0.path != Utf8.Encode(c.path)
  {
    hide Be, FromBe, Utf8.Encode, Utf8.IsAscii, ReadSized, StdPayloadHasFile, FileStreamSize, Take;
    var tail := if c.action == ACT_PUT_REMOTE_FILE then sha(c.payload) + c.payload else [];
    assert StdPayload(sha, c) + s == Be(|c.path|, 2) + (Utf8.Encode(c.path) + (tail + s));
    ReadSizedText(c.path, tail + s);
  }

  lemma ReadBodyOf(sha: Hasher, c: Client, s: Text)
    requires Packs(sha, c)
    ensures ReadBody(c.action, |Payload(sha, c)|, Payload(sha, c) + s) == Some((MeantBody(sha, c), s)) <==> AsciiBody(c)
  {
    hide ReadUserPayload, ReadStdPayload, UserPayload, StdPayload, Pow256;
    Widths();
    if c.action == ACT_LOCAL_OPERATION {
      assert [] + s == s;
    } else if c.action == ACT_USER_OPERATION {
      ReadUserPayloadOf(c, s);
    } else {
      ReadStdPayloadOf(sha, c, s);
    }
  }

  lemma ReadRestOf(sha: Hasher, c: Client, s: Text)
    requires Packs(sha, c)
    ensures var h := Head(c.action, c.userFlag, |c.username|, |c.password|, c.sessionId);
            var user, pass := Utf8.Encode(c.username), Utf8.Encode(c.password);
            var tail := Be(|Payload(sha, c)|, 8) + (Payload(sha, c) + s);
            ReadRest(h, user + (pass + tail)) == Parsed(Meant(sha, c), s) <==> AsciiRequest(c)
  {
    hide Be, FromBe, Pow256, Utf8.Encode, Utf8.IsAscii, Payload, ReadBody, MeantBody, AsciiBody;
    var user, pass := Utf8.Encode(c.username), Utf8.Encode(c.password);
    var tail := Be(|Payload(sha, c)|, 8) + (Payload(sha, c) + s);
    Utf8.LengthIffAscii(c.username);
    Utf8.LengthIffAscii(c.password);
    if Utf8.IsAscii(c.username) {
      TakeConcat(user, pass + tail);
      if Utf8.IsAscii(c.password) {
        TakeConcat(pass, tail);
        TakeConcat(Be(|Payload(sha, c)|, 8), Payload(sha, c) + s);
        FromBeOfBe(|Payload(sha, c)|, 8);
        ReadBodyOf(sha, c, s);
      }
    }
  }

  lemma RequestBytes(sha: Hasher, c: Client, s: Text)
    requires Request(sha, c).Some?
    ensures |c.username| < 0x1_0000 && |c.password| < 0x1_0000 && c.sessionId < SESSION_LIMIT
    ensures Request(sha, c).value + s
         == Header(c) + (Utf8.Encode(c.username) + (Utf8.Encode(c.password)
            + (Be(|Payload(sha, c)|, 8) + (Payload(sha, c) + s))))
  {
    hide Be, Utf8.Encode, Payload, Header, Pow256, Packs;
    Regroup(Header(c), Utf8.Encode(c.username), Utf8.Encode(c.password), Be(|Payload(sha, c)|, 8), Payload(sha, c), s);
    RequestPacks(sha, c);
    PacksHead(sha, c);
  }

  lemma PacksHead(sha: Hasher, c: Client)
    requires Packs(sha, c)
    ensures |c.username| < 0x1_0000 && |c.password| < 0x1_0000 && c.sessionId < SESSION_LIMIT
  {
    hide Payload;
  }

  /** The server recovers every field of a request and leaves the following bytes alone exactly when every
      text in it is ASCII, whatever the action and the length of the file. */
  lemma RequestRoundTrip(sha: Hasher, c: Client, s: Text)
    requires Request(sha, c).Some?
    ensures ReadRequest(Request(sha, c).value + s) == Parsed(Meant(sha, c), s) <==> AsciiRequest(c)
  {
    hide Be, Utf8.Encode, Payload, ReadRest, Meant, AsciiRequest, Header, ReadHead, Packs;
    RequestBytes(sha, c, s);
    hide Request;
    var user, pass := Utf8.Encode(c.username), Utf8.Encode(c.password);
    var tail := Be(|Payload(sha, c)|, 8) + (Payload(sha, c) + s);
    ReadHeadOfHeader(c, user + (pass + tail));
    RequestPacks(sha, c);
    ReadRestOf(sha, c, s);
  }

  lemma RequestPacks(sha: Hasher, c: Client)
    requires Request(sha, c).Some?
    ensures Packs(sha, c)
  {
    hide Packs;
  }

  // ----- where the fields lie -----

  lemma FieldOfHead(t: Text, head: Text, offset: nat, bytes: Text)
    requires HasAt(t, 0, head) && HasAt(head, offset, bytes)
    ensures HasAt(t, offset, bytes)
  {
    assert t[..|head|] == head;
  }

  lemma HeaderLayout(c: Client)
    ensures var h := Header(c);
      && |h| == 12 && HasAt(h, 0, [c.action]) && HasAt(h, 1, [c.userFlag]) && HasAt(h, 2, [0, 0])
      && HasAt(h, 4, Be(|c.username|, 2)) && HasAt(h, 6, Be(|c.password|, 2)) && HasAt(h, 8, Be(c.sessionId, 4))
  {
    BeBytes(0);
    hide Be;
  }

  lemma PacketParts(p: Text, c: Client, user: Text, passwd: Text, len: Text, payload: Text)
    requires |len| == 8 && p == Header(c) + user + passwd + len + payload
    ensures |p| == 20 + |user| + |passwd| + |payload|
    ensures HasAt(p, 0, Header(c)) && HasAt(p, 12, user) && HasAt(p, 12 + |user|, passwd)
    ensures HasAt(p, 12 + |user| + |passwd|, len) && HasAt(p, 20 + |user| + |passwd|, payload)
  {
    HeaderLayout(c);
    hide Header;
  }

  lemma RequestIs(sha: Hasher, c: Client)
    requires Request(sha, c).Some?
    ensures Request(sha, c).value
         == Header(c) + Utf8.Encode(c.username) + Utf8.Encode(c.password) + Be(|Payload(sha, c)|, 8) + Payload(sha, c)
  {
    hide Be, Utf8.Encode, Payload, Packs, Pow256, Header;
  }

  lemma HeaderParts(p: Text, c: Client)
    requires HasAt(p, 0, Header(c))
    ensures HasAt(p, 0, [c.action]) && HasAt(p, 1, [c.userFlag]) && HasAt(p, 2, [0, 0])
    ensures HasAt(p, 4, Be(|c.username|, 2)) && HasAt(p, 6, Be(|c.password|, 2)) && HasAt(p, 8, Be(c.sessionId, 4))
  {
    hide Header, Be;
    HeaderLayout(c);
    FieldOfHead(p, Header(c), 0, [c.action]);
    FieldOfHead(p, Header(c), 1, [c.userFlag]);
    FieldOfHead(p, Header(c), 2, [0, 0]);
    FieldOfHead(p, Header(c), 4, Be(|c.username|, 2));
    FieldOfHead(p, Header(c), 6, Be(|c.password|, 2));
    FieldOfHead(p, Header(c), 8, Be(c.sessionId, 4));
  }

  /** The header and the payload of a request, field by field. */
  lemma RequestLayout(sha: Hasher, c: Client)
    requires Request(sha, c).Some?
    ensures var p, user, passwd, payload :=
              Request(sha, c).value, Utf8.Encode(c.username), Utf8.Encode(c.password), Payload(sha, c);
      && |p| == 20 + |user| + |passwd| + |payload|
      && HasAt(p, 0, [c.action]) && HasAt(p, 1, [c.userFlag]) && HasAt(p, 2, [0, 0])
      && HasAt(p, 4, Be(|c.username|, 2)) && HasAt(p, 6, Be(|c.password|, 2)) && HasAt(p, 8, Be(c.sessionId, 4))
      && HasAt(p, 12, user) && HasAt(p, 12 + |user|, passwd)
      && HasAt(p, 12 + |user| + |passwd|, Be(|payload|, 8)) && HasAt(p, 20 + |user| + |passwd|, payload)
  {
    hide Be, Utf8.Encode, Payload, Header, Request;
    var p, payload := Request(sha, c).value, Payload(sha, c);
    RequestIs(sha, c);
    PacketParts(p, c, Utf8.Encode(c.username), Utf8.Encode(c.password), Be(|payload|, 8), payload);
    HeaderParts(p, c);
  }

  lemma UserPayloadLayout(sha: Hasher, c: Client)
    requires c.action == 1
    ensures var p, name, passwd := Payload(sha, c), Utf8.Encode(c.otherUsername), Utf8.Encode(c.otherPassword);
      && HasAt(p, 0, [c.userFlag]) && HasAt(p, 1, [c.perm])
      && HasAt(p, 2, Be(|c.otherUsername|, 2)) && HasAt(p, 4, name)
      && (c.userFlag == 10 ==> HasAt(p, 4 + |name|, Be(|c.otherPassword|, 2)) && HasAt(p, 6 + |name|, passwd))
      && |p| == 4 + |name| + (if c.userFlag == 10 then 2 + |passwd| else 0)
  {
    hide Be, Utf8.Encode;
  }

  lemma StdPayloadLayout(sha: Hasher, c: Client)
    requires c.action != 1
    ensures var p, path := Payload(sha, c), Utf8.Encode(c.path);
      && (c.action == 7 ==> p == [])
      && (c.action != 7 ==> HasAt(p, 0, Be(|c.path|, 2)) && HasAt(p, 2, path))
      && (c.action == 6 ==> HasAt(p, 2 + |path|, sha(c.payload)) && HasAt(p, 34 + |path|, c.payload))
      && |p| == (if c.action == 7 then 0 else 2 + |path| + (if c.action == 6 then 32 + |c.payload| else 0))
  {
    hide Be, Utf8.Encode;
  }

  // ----- a request that is cut off -----

  /** What was read stays read when more bytes arrive. */
  lemma TakeMore(s: Text, n: nat, more: Text)
    ensures Take(s, n).Some? ==> Take(s + more, n) == Some((Take(s, n).value.0, Take(s, n).value.1 + more))
  {
    if n <= |s| {
      assert (s + more)[..n] == s[..n] && (s + more)[n..] == s[n..] + more;
    }
  }

  lemma SizedMore(s: Text, more: Text)
    ensures ReadSized(s).Some? ==> ReadSized(s + more) == Some((ReadSized(s).value.0, ReadSized(s).value.1 + more))
  {
    hide FromBe, Take;
    if |s| >= 2 {
      assert (s + more)[..2] == s[..2] && (s + more)[2..] == s[2..] + more;
      TakeMore(s[2..], FromBe(s[..2]), more);
    }
  }

  lemma UserPayloadMore(n: nat, s: Text, more: Text)
    ensures var r := ReadUserPayload(n, s);
            r.Some? ==> ReadUserPayload(n, s + more) == Some((r.value.0, r.value.1 + more))
  {
    hide ReadSized;
    if |s| >= 2 {
      assert (s + more)[2..] == s[2..] + more;
      SizedMore(s[2..], more);
      if ReadSized(s[2..]).Some? {
        SizedMore(ReadSized(s[2..]).value.1, more);
      }
    }
  }

  lemma StdPayloadMore(n: nat, s: Text, more: Text)
    ensures var r := ReadStdPayload(n, s);
            r.Some? ==> ReadStdPayload(n, s + more) == Some((r.value.0, r.value.1 + more))
  {
    hide ReadSized, Take, StdPayloadHasFile, FileStreamSize;
    SizedMore(s, more);
    if ReadSized(s).Some? {
      var (path, r) := ReadSized(s).value;
      TakeMore(r, SHA256_DIGEST_LENGTH, more);
      if Take(r, SHA256_DIGEST_LENGTH).Some? {
        TakeMore(Take(r, SHA256_DIGEST_LENGTH).value.1, FileStreamSize(n, |path|), more);
      }
    }
  }

  lemma RestMore(h: Head, s: Text, more: Text)
    ensures var r := ReadRest(h, s); r.Parsed? ==> ReadRest(h, s + more) == Parsed(r.req, r.rest + more)
  {
    hide FromBe, Take, ReadUserPayload, ReadStdPayload;
    TakeMore(s, h.usernameLen, more);
    if Take(s, h.usernameLen).Some? {
      var s1 := Take(s, h.usernameLen).value.1;
      TakeMore(s1, h.passwdLen, more);
      if Take(s1, h.passwdLen).Some? {
        var s2 := Take(s1, h.passwdLen).value.1;
        TakeMore(s2, 8, more);
        if Take(s2, 8).Some? {
          var (len, s3) := Take(s2, 8).value;
          UserPayloadMore(FromBe(len), s3, more);
          StdPayloadMore(FromBe(len), s3, more);
        }
      }
    }
  }

  lemma ReadMore(s: Text, more: Text)
    ensures var r := ReadRequest(s); r.Parsed? ==> ReadRequest(s + more) == Parsed(r.req, r.rest + more)
  {
    hide FromBe, ReadRest;
    if |s| >= 12 {
      var t := s + more;
      assert t[4..6] == s[4..6] && t[6..8] == s[6..8] && t[8..12] == s[8..12] && t[12..] == s[12..] + more;
      RestMore(ReadHead(s).value.0, s[12..], more);
    }
  }

  /** Cut off anywhere, a request is never read as another: the server has its session id from byte 12 on, and 0
      before. */
  lemma PrefixIsUnread(sha: Hasher, c: Client, k: nat)
    requires Request(sha, c).Some? && AsciiRequest(c) && k < |Request(sha, c).value|
    ensures ReadRequest(Request(sha, c).value[..k]) == Unread(if k < 12 then 0 else c.sessionId)
  {
    hide Request, ReadRequest, Meant, AsciiRequest;
    var p := Request(sha, c).value;
    assert p[..k] + p[k..] == p && p + [] == p;
    ReadMore(p[..k], p[k..]);
    RequestRoundTrip(sha, c, []);
    assert !ReadRequest(p[..k]).Parsed?;
    UnreadSession(p[..k]);
    RequestHead(sha, c);
  }

  /** The header's session id is that of bytes 8 to 12. */
  lemma UnreadSession(s: Text)
    ensures ReadRequest(s).Unread? ==> ReadRequest(s).session == if |s| < 12 then 0 else FromBe(s[8..12])
  {
    hide FromBe, Take, ReadBody;
  }

  lemma RequestHead(sha: Hasher, c: Client)
    requires Request(sha, c).Some?
    ensures |Request(sha, c).value| >= 12 && FromBe(Request(sha, c).value[8..12]) == c.sessionId
    ensures forall k | 12 <= k <= |Request(sha, c).value| ::
      Request(sha, c).value[..k][8..12] == Request(sha, c).value[8..12]
  {
    hide Be, FromBe, Utf8.Encode, Payload, Request, Pow256, Packs;
    RequestPacks(sha, c);
    SessionPacks(sha, c);
    RequestLayout(sha, c);
    Widths();
    FromBeOfBe(c.sessionId, 4);
  }

  lemma SessionPacks(sha: Hasher, c: Client)
    requires Packs(sha, c)
    ensures c.sessionId < SESSION_LIMIT
  {
    hide Payload, Pow256;
  }

  // ----- building the packet -----

  /** Whatever follows these bytes, the server reads what the client means and leaves the rest. */
  ghost predicate ReadAsMeant(sha: Hasher, c: Client, request: Text) {
    forall rest: Text :: ReadRequest(request + rest) == Parsed(Meant(sha, c), rest)
  }

  lemma RequestIsReadAsMeant(sha: Hasher, c: Client)
    ensures Request(sha, c).Some? ==> (ReadAsMeant(sha, c, Request(sha, c).value) <==> AsciiRequest(c))
  {
    hide Request, ReadRequest, Meant, AsciiRequest;
    if Request(sha, c).Some? {
      RequestRoundTrip(sha, c, []);
      if AsciiRequest(c) {
        forall rest: Text ensures ReadRequest(Request(sha, c).value + rest) == Parsed(Meant(sha, c), rest) {
          RequestRoundTrip(sha, c, rest);
        }
      }
    }
  }

  /** client_request: a bytearray that grows field by field. It raises exactly when a number does not fit its
      field; otherwise the server reads from the bytes what the client means, and no byte after them, exactly
      when every text is ASCII. */
  method ClientRequest(sha: Hasher, c: Client) returns (request: Option<Text>)
    ensures request == Request(sha, c)
    ensures request.Some? <==> Packs(sha, c)
    ensures request.Some? ==> (ReadAsMeant(sha, c, request.value) <==> AsciiRequest(c))
  {
    RequestIsReadAsMeant(sha, c);
    hide ReadAsMeant, AsciiRequest;
    hide Be, Utf8.Encode, Pow256;
    if |c.username| >= 0x1_0000 || |c.password| >= 0x1_0000 || c.sessionId >= SESSION_LIMIT {
      return None;
    }
    var header := [c.action, c.userFlag] + Be(0, 2) + Be(|c.username|, 2) + Be(|c.password|, 2) + Be(c.sessionId, 4);
    header := header + Utf8.Encode(c.username);
    header := header + Utf8.Encode(c.password);
    var payload: Text := [];
    if c.action == ACT_LOCAL_OPERATION {
    } else if c.action == ACT_USER_OPERATION {
      if |c.otherUsername| >= 0x1_0000 {
        return None;
      }
      payload := [c.userFlag, c.perm] + Be(|c.otherUsername|, 2);
      payload := payload + Utf8.Encode(c.otherUsername);
      if c.userFlag == USR_ACT_CREATE_USER {
        if |c.otherPassword| >= 0x1_0000 {
          return None;
        }
        payload := payload + (Be(|c.otherPassword|, 2) + Utf8.Encode(c.otherPassword));
      } else {
        payload := payload + [];
      }
    } else {
      if |c.path| >= 0x1_0000 {
        return None;
      }
      payload := Be(|c.path|, 2);
      payload := payload + Utf8.Encode(c.path);
      if c.action == ACT_PUT_REMOTE_FILE {
        payload := payload + (sha(c.payload) + c.payload);
      } else {
        payload := payload + [];
      }
    }
    assert payload == Payload(sha, c);
    if |payload| >= Pow256(8) {
      return None;
    }
    header := header + Be(|payload|, 8);
    header := header + payload;
    return Some(header);
  }
}
