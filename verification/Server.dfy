/** serve_client: read one request, act on it, answer it. */
module Server {
  import opened Bytes
  import opened Codes
  import opened Paths
  import opened FileTree
  import opened Accounts
  import opened Store
  import opened ByteOrder
  import opened Crypto
  import opened Streams
  import opened Database
  import opened Protocol
  import opened Control
  import opened Requests
  import opened Responses
  import opened Runs
  import ServerSock

  /** Some first part of the packet, all of it unless a write failed. */
  ghost predicate SentPart(before: Text, after: Text, packet: Text) {
    exists k | 0 <= k <= |packet| :: after == before + packet[..k]
  }

  method Answer(conn: Socket, messages: Messages, reply: Reply) returns (ok: bool)
    modifies conn`outgoing
    ensures SentPart(old(conn.outgoing), conn.outgoing, ReplyPacket(messages, reply))
    ensures ok ==> conn.outgoing == old(conn.outgoing) + ReplyPacket(messages, reply)
  {
    hide Packet;
    ghost var packet := ReplyPacket(messages, reply);
    var messageCalls, dataCalls;
    ok, messageCalls, dataCalls := WriteResponse(conn, reply.code, reply.session, messages(reply.code), reply.content);
    assert packet[..|packet|] == packet;
  }

  /** Serving what the socket holds makes no write past a buffer and finds a session id to draw. */
  ghost predicate Servable(db: Db, conn: Socket, c: Config, now: int, rand: nat -> nat)
    reads db, db.fs, conn
  {
    var r := ReadRequest(conn.incoming);
    r.Parsed? ==>
      && !Overruns(c, StateOf(db), r.req, now)
      && (r.req.sessionId == 0 ==> exists k :: GenSession(rand, k) !in db.sessions)
  }

  /** What went in and out of a connection, and the log line it leaves. */
  ghost predicate Answered(
      messages: Messages, now: int, ending: Ending, incoming: Text, outgoing: Text, rest: Text, sent: Text,
      entry: LogLine)
  {
    match ReadRequest(incoming)
    case Parsed(req, after) =>
      entry.ev == Served(req, now) && rest == after && SentPart(outgoing, sent, ReplyPacket(messages, entry.reply))
    case Unread(session) =>
      && entry.ev == ReadFailed(session) && rest == []
      && entry.reply == Reply(EndingCode(ending), 0, None)
      && (if ending.Closed? then sent == outgoing
          else SentPart(outgoing, sent, ReplyPacket(messages, entry.reply)))
  }

  /** One connection is one step of the state machine. A request that cannot be read drops the session id
      it carried, as far as that was read, and is answered unless the peer closed; any other is answered
      with its packet. An answer may be cut where a write fails. Afterwards the next connection can be served,
      whatever this one did to the disk; and disk and memory still agree exactly if it did not spoil that. */
  method ServeClient(db: Db, conn: Socket, c: Config, now: int, rand: nat -> nat) returns (entry: LogLine)
    requires db.Valid() && c.home == db.home && c.sha == db.sha
    requires Servable(db, conn, c, now, rand)
    modifies db, db.fs, conn`incoming, conn`outgoing
    ensures Next(c, old(StateOf(db)), entry.ev, StateOf(db), entry.reply)
    ensures Answered(c.messages, now, conn.ending, old(conn.incoming), old(conn.outgoing),
                     conn.incoming, conn.outgoing, entry)
    ensures db.Valid()
    ensures old(Inv(c, StateOf(db))) ==>
      (Inv(c, StateOf(db)) <==> !Spoils(c, old(StateOf(db)), entry.ev, entry.reply.code))
  {
    hide IsHome, Usable, ReadRequest, Next, ReplyPacket, GenSession, SentPart, WellTyped, Inv, Spoils, Overruns;
    label Start:
    ghost var before, r := StateOf(db), ReadRequest(conn.incoming);
    var res, req, session := ServerSock.ReadClientReq(conn);
    if req.None? {
      entry := FailConnection(db, conn, c, res, session);
      StepKeeps(db, c, before, entry);
      return;
    }
    assert db.Valid() && StateOf(db) == before by {
      StillValid@Start(db);
    }
    entry := ActAndAnswer(db, conn, c, req.value, now, rand);
    StepKeeps(db, c, before, entry);
  }

  /** ctrl_parse_action and write_response. */
  method ActAndAnswer(db: Db, conn: Socket, c: Config, req: WirePayload, now: int, rand: nat -> nat)
    returns (entry: LogLine)
    requires db.Valid() && c.home == db.home && c.sha == db.sha
    requires WellTyped(req) && !Overruns(c, StateOf(db), req, now)
    requires req.sessionId == 0 ==> exists k :: GenSession(rand, k) !in db.sessions
    modifies db, db.fs, conn`outgoing
    ensures Next(c, old(StateOf(db)), entry.ev, StateOf(db), entry.reply) && entry.ev == Served(req, now)
    ensures SentPart(old(conn.outgoing), conn.outgoing, ReplyPacket(c.messages, entry.reply))
  {
    hide IsHome, Next, ReplyPacket, GenSession, SentPart, Db.Valid, WellTyped, Overruns;
    var reply := ParseAction(db, req, c, now, rand);
    var ok := Answer(conn, c.messages, reply);
    entry := LogLine(Served(req, now), reply);
  }

  /** The failed-read path: answer unless the peer closed, and drop the session. */
  method FailConnection(db: Db, conn: Socket, c: Config, res: Byte, session: nat) returns (entry: LogLine)
    modifies db`sessions, conn`outgoing
    ensures Next(c, old(StateOf(db)), entry.ev, StateOf(db), entry.reply)
    ensures entry == LogLine(ReadFailed(session), Reply(res, 0, None))
    ensures if res == OP_SOCK_CLOSED then conn.outgoing == old(conn.outgoing)
            else SentPart(old(conn.outgoing), conn.outgoing, ReplyPacket(c.messages, entry.reply))
  {
    hide IsHome, Next, ReplyPacket, SentPart;
    var failure := Reply(res, 0, None);
    if res != OP_SOCK_CLOSED {
      var sent := Answer(conn, c.messages, failure);
    }
    DropSession(db, c, session, failure);
    entry := LogLine(ReadFailed(session), failure);
  }

  lemma StepKeeps(db: Db, c: Config, before: State, entry: LogLine)
    requires Next(c, before, entry.ev, StateOf(db), entry.reply) && Sane(before)
    ensures db.Valid()
    ensures Inv(c, before) ==> (Inv(c, StateOf(db)) <==> !Spoils(c, before, entry.ev, entry.reply.code))
  {
    hide IsHome, Next, Inv, Spoils, Usable;
    NextKeepsSane(c, before, entry.ev, StateOf(db), entry.reply);
    if Inv(c, before) {
      NextKeepsInvIff(c, before, entry.ev, StateOf(db), entry.reply);
    }
  }

  // ----- what the client makes of the answers -----

  lemma SessionIdFits(incoming: Text)
    ensures var r := ReadRequest(incoming); r.Parsed? ==> r.req.sessionId < SESSION_LIMIT
  {
    hide FromBe, Pow256, ReadBody;
    Widths();
    if |incoming| >= 12 {
      FromBeBound(incoming[8..12]);
    }
  }

  /** The client recovers every field of the reply and leaves the bytes after its packet alone. */
  predicate ReadsBack(messages: Messages, reply: Reply, more: Text) {
    ReadResponse(ReplyPacket(messages, reply) + more)
    == Some((MeantResponse(reply.code, reply.session, messages(reply.code), reply.content), more))
  }

  lemma PlainReplyIsReadBack(messages: Messages, reply: Reply, more: Text)
    requires reply.session < SESSION_LIMIT
    requires reply.content.Some? ==>
      && reply.code == OP_SUCCESS && 0 < |reply.content.value.stream| < 0x8000_0000_0000_0000
      && |reply.content.value.digest| == SHA256_DIGEST_LENGTH
    ensures ReadsBack(messages, reply, more)
  {
    hide Packet, ReadResponse, Pow256;
    Widths();
    ResponseRoundTrip(reply.code, reply.session, messages(reply.code), reply.content, more);
  }

  /** Whatever was asked in a run, the packet that answers it is read back by the client. */
  lemma EveryReplyIsReadBack(
      c: Config, states: seq<State>, log: seq<LogLine>, n: nat, now: int, ending: Ending, incoming: Text,
      outgoing: Text, rest: Text, sent: Text, more: Text)
    requires IsRun(c, states, log) && n < |log|
    requires Answered(c.messages, now, ending, incoming, outgoing, rest, sent, log[n])
    requires log[n].reply.content.Some? ==> |log[n].reply.content.value.stream| < 0x8000_0000_0000_0000
    ensures ReadsBack(c.messages, log[n].reply, more)
  {
    hide IsHome, Next, ReadRequest, SentPart, ReadsBack, ReplyPacket;
    SessionIdFits(incoming);
    assert StepAt(c, states, log, n);
    if log[n].ev.Served? {
      ReplySession(c, states[n], log[n], states[n + 1]);
      if log[n].reply.content.Some? {
        ReplyContent(c, states[n], log[n], states[n + 1]);
      }
    }
    PlainReplyIsReadBack(c.messages, log[n].reply, more);
  }

  /** A request cut off anywhere leaves one line in the log: its session, known from byte 12 on, is dropped. The peer
      is told unless it closed; the code says whether it was slow or the connection broke. */
  lemma CutOffDropsSession(
      c: Config, client: Client, k: nat, now: int, ending: Ending, outgoing: Text, rest: Text, sent: Text,
      entry: LogLine)
    requires Request(c.sha, client).Some? && AsciiRequest(client) && k < |Request(c.sha, client).value|
    requires Answered(
      c.messages, now, ending, Request(c.sha, client).value[..k], outgoing, rest, sent, entry)
    ensures entry.ev == ReadFailed(if k < 12 then 0 else client.sessionId)
    ensures ending.Closed? ==> sent == outgoing
    ensures ending.TimedOut? ==> SentPart(outgoing, sent, ReplyPacket(c.messages, Reply(OP_SESSION_ERROR, 0, None)))
    ensures ending.Broken? ==> SentPart(outgoing, sent, ReplyPacket(c.messages, Reply(OP_FAILURE, 0, None)))
  {
    hide IsHome, Request, ReadRequest, SentPart, ReplyPacket, AsciiRequest;
    PrefixIsUnread(c.sha, client, k);
  }

  // ----- stopping and starting -----

  /** db_shutdown, when asked to, then db_init on the same home: the same users, no sessions. */
  method Restart(db: Db, c: Config, saved: bool) returns (started: Db?)
    requires c.home == db.home && c.sha == db.sha
    requires Inv(c, StateOf(db))
    modifies db.fs
    ensures started != null && started.fs == db.fs && started.sha == db.sha && started.home == db.home
    ensures exists tree: Tree :: Restarts(c, old(StateOf(db)), saved, tree, StateOf(started))
    ensures Inv(c, StateOf(started)) && started.users == old(db.users)
  {
    hide IsHome, Init, Saved, Inv, Usable, StorableTable, CleanTable, Bounded;
    ghost var before := StateOf(db);
    if saved {
      InvParts(c, before);
      InvIsBounded(c, before);
      db.UpdateDb();
      SavedKeepsInv(c, before, db.fs.tree);
    }
    ghost var tree := db.fs.tree;
    ghost var stopped := before.(tree := tree);
    InvReloads(c, stopped);
    InvParts(c, stopped);
    SaneIsWellFormed(stopped);
    started := DbInit(db.sha, db.home, db.fs);
    assert StateOf(started) == stopped.(sessions := map[]);
    assert Restarts(c, before, saved, tree, StateOf(started));
  }
}
