/** The connection to a client: octets arrive in arbitrary chunks and leave in arbitrary parts. */
module Sockets {
  import opened Bytes

  /** incoming is all that recv() will still deliver before it reports the end or an error. */
  class Socket {
    var incoming: seq<byte>
    var outgoing: seq<byte>
    var sendFailed: bool
    var lastPongId: int
    var currentPingId: int

    constructor (incoming: seq<byte>)
      ensures this.incoming == incoming && outgoing == [] && !sendFailed && lastPongId == currentPingId == -1
    {
      this.incoming, outgoing, sendFailed := incoming, [], false;
      lastPongId, currentPingId := -1, -1;
    }

    /** recv(): a non-empty chunk that fits, or a result <= 0 when nothing is left. */
    method Recv(buf: array<byte>, size: nat) returns (n: int)
      requires 0 < size <= buf.Length
      modifies `incoming, buf
      ensures n <= 0 <==> old(incoming) == []
      ensures n <= 0 ==> incoming == [] && buf[..] == old(buf[..])
      ensures n > 0 ==>
        n <= size && n <= |old(incoming)| && buf[..n] == old(incoming)[..n] && incoming == old(incoming)[n..]
      ensures n > 0 ==> forall i :: n <= i < buf.Length ==> buf[i] == old(buf[i])
    {
      if incoming == [] {
        n :| -1 <= n <= 0;
      } else {
        n :| 1 <= n <= size && n <= |incoming|;
        forall i | 0 <= i < n {
          buf[i] := incoming[i];
        }
        incoming := incoming[n..];
      }
    }

    /** send(): takes some of the octets offered, or fails. */
    method Send(buf: array<byte>, from: nat, to: nat) returns (ret: int)
      requires from < to <= buf.Length
      modifies `outgoing, `sendFailed
      ensures ret == -1 || 1 <= ret <= to - from
      ensures ret == -1 ==> sendFailed && outgoing == old(outgoing)
      ensures ret != -1 ==> sendFailed == old(sendFailed) && outgoing == old(outgoing) + buf[from..from + ret]
    {
      if * {
        ret, sendFailed := -1, true;
      } else {
        ret :| 1 <= ret <= to - from;
        outgoing := outgoing + buf[from..from + ret];
      }
    }

    /** send_all(): every octet exactly once and in order, however send() cuts them. */
    method SendAll(buf: array<byte>, length: nat) returns (r: int)
      requires length <= buf.Length
      modifies `outgoing, `sendFailed
      ensures r == 0 || r == -1
      ensures r == 0 ==> outgoing == old(outgoing) + buf[..length] && sendFailed == old(sendFailed)
      ensures r == -1 ==> sendFailed && old(outgoing) <= outgoing <= old(outgoing) + buf[..length]
    {
      var p, len := 0, length;
      while len != 0
        invariant 0 <= p && 0 <= len && p + len == length
        invariant outgoing == old(outgoing) + buf[..p]
        invariant sendFailed == old(sendFailed)
        decreases len
      {
        var ret := Send(buf, p, length);
        if ret == -1 {
          return -1;
        }
        assert buf[..p] + buf[p..p + ret] == buf[..p + ret];
        p, len := p + ret, len - ret;
      }
      return 0;
    }
  }
}
