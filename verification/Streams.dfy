/** Byte streams over a socket: reading exactly n bytes however they arrive, and writing in chunks. */
module Streams {
  import opened Bytes
  import opened Codes

  /** The first n bytes and the rest, if there are that many. */
  function Take(s: Text, n: nat): Option<(Text, Text)> {
    if n <= |s| then Some((s[..n], s[n..])) else None
  }

  lemma TakeConcat(a: Text, b: Text)
    ensures Take(a + b, |a|) == Some((a, b))
  {
  }

  /** What the server meets after the last byte the peer sent. */
  datatype Ending = Closed | TimedOut | Broken

  function EndingCode(e: Ending): Byte {
    match e
    case Closed => OP_SOCK_CLOSED
    case TimedOut => OP_SESSION_ERROR
    case Broken => OP_FAILURE
  }

  /** A position and a size handed to write(). */
  datatype WriteCall = WriteCall(offset: nat, size: nat)

  /** A connected socket: bytes still to come, bytes already sent. The peer's bytes arrive, and the
      kernel takes ours, in pieces of any size. */
  class Socket {
    var incoming: Text
    const ending: Ending
    var outgoing: Text

    constructor (incoming: Text, ending: Ending)
      ensures this.incoming == incoming && this.ending == ending && outgoing == []
    {
      this.incoming := incoming;
      this.ending := ending;
      this.outgoing := [];
    }

    /** recv(n): some of the bytes, at least one. */
    method Recv(n: nat) returns (bytes: Text)
      requires n > 0 && incoming != []
      modifies this`incoming
      ensures 1 <= |bytes| <= n
      ensures old(incoming) == bytes + incoming
    {
      var k: nat :| 1 <= k <= n && k <= |incoming|;
      bytes := incoming[..k];
      incoming := incoming[k..];
    }

    /** write: -1 on error, otherwise the number of bytes taken, at least one. */
    method Write(chunk: Text) returns (sent: int)
      requires chunk != []
      modifies this`outgoing
      ensures sent == -1 || 1 <= sent <= |chunk|
      ensures outgoing == if sent == -1 then old(outgoing) else old(outgoing) + chunk[..sent]
    {
      if * {
        return -1;
      }
      sent :| 1 <= sent <= |chunk|;
      outgoing := outgoing + chunk[..sent];
    }

    /** read_stream of the server: one byte at a time until there are n. It takes exactly n bytes or, when
        the stream ends first, all of them. */
    method ReadStream(n: nat) returns (res: Byte, payload: Text)
      modifies this`incoming
      ensures |old(incoming)| >= n ==>
        res == OP_SUCCESS && payload == old(incoming)[..n] && incoming == old(incoming)[n..]
      ensures |old(incoming)| < n ==> res == EndingCode(ending) && res != OP_SUCCESS && incoming == []
    {
      payload := [];
      if n == 0 {
        return OP_SUCCESS, [];
      }
      var keepReading := true;
      while keepReading
        invariant old(incoming) == payload + incoming
        invariant |payload| <= n && (keepReading <==> |payload| < n)
        decreases n - |payload|, keepReading
      {
        if incoming == [] {
          return EndingCode(ending), [];
        }
        var readBytes := Recv(1);
        payload := payload + readBytes;
        if |payload| == n {
          keepReading := false;
        }
      }
      return OP_SUCCESS, payload;
    }

    /** _read_stream of the client: recv of what is missing until nothing is. It asks that the bytes come. */
    method ReadExactly(bytesToRead: nat) returns (buffer: Text)
      requires |incoming| >= bytesToRead
      modifies this`incoming
      ensures buffer == old(incoming)[..bytesToRead] && incoming == old(incoming)[bytesToRead..]
    {
      buffer := [];
      while bytesToRead != |buffer|
        invariant |buffer| <= bytesToRead
        invariant old(incoming) == buffer + incoming
        decreases bytesToRead - |buffer|
      {
        var more := Recv(bytesToRead - |buffer|);
        buffer := buffer + more;
      }
    }

    /** One of the two sending loops of write_response: packet[from..to] in pieces of at most `limit`,
        whatever part of each piece the kernel takes. */
    method SendRange(packet: Text, from: nat, to: nat, limit: nat) returns (ok: bool, calls: seq<WriteCall>)
      requires from < to <= |packet| && limit > 0
      modifies this`outgoing
      ensures ok ==> outgoing == old(outgoing) + packet[from..to]
      ensures !ok ==> exists k | from <= k < to :: outgoing == old(outgoing) + packet[from..k]
      ensures forall i | 0 <= i < |calls| ::
        calls[i].size <= limit && from <= calls[i].offset && calls[i].offset + calls[i].size <= to
    {
      calls := [];
      var offset, totalSent, totalSendSize := from, 0, to - from;
      var sendSize := if totalSendSize < limit then totalSendSize else limit;
      while true
        invariant totalSent == offset - from && from <= offset < to
        invariant 0 < sendSize <= limit && offset + sendSize <= to
        invariant outgoing == old(outgoing) + packet[from..offset]
        invariant forall i | 0 <= i < |calls| ::
          calls[i].size <= limit && from <= calls[i].offset && calls[i].offset + calls[i].size <= to
        decreases totalSendSize - totalSent
      {
        calls := calls + [WriteCall(offset, sendSize)];
        var chunk := packet[offset..offset + sendSize];
        var sentBytes := Write(chunk);
        if sentBytes == -1 {
          return false, calls;
        }
        assert packet[from..offset] + chunk[..sentBytes] == packet[from..offset + sentBytes];
        offset := offset + sentBytes;
        totalSent := totalSent + sentBytes;
        if totalSent == totalSendSize {
          break;
        }
        sendSize := totalSendSize - totalSent;
        sendSize := if sendSize < limit then sendSize else limit;
      }
      return true, calls;
    }
  }
}
