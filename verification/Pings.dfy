/** The numbers of pings: what ws_ping() counts, and what the PONGs of the client say. */
module Pings {
  import opened Bytes
  import opened Frames
  import opened Sockets
  import Sending

  const INT_MAX := 0x7FFF_FFFF

  /** The payload of a PING. */
  function PingMessage(id: nat): (msg: seq<byte>)
    ensures |msg| == 4
  {
    BigEndian(id, 4)
  }

  /** An int32_t of four octets. */
  function PongId(msg: seq<byte>): int
    requires |msg| == 4
  {
    var n := BigEndianValue(msg);
    if n <= INT_MAX then n else n - 0x1_0000_0000
  }

  /** The identifier that counts after a PONG: the payload, if it is that of a PING that was sent. */
  function PongTaken(last: int, current: int, payload: seq<byte>): int {
    if |payload| == 4 && 0 <= PongId(payload) <= current then PongId(payload) else last
  }

  /** Both in numbers: four octets, the most significant first, and two's complement. */
  lemma IdsInNumbers(id: nat, msg: seq<byte>)
    requires id < 0x1_0000_0000 && |msg| == 4
    ensures Word(PingMessage(id)) == id
    ensures PongId(msg) == if Word(msg) < 0x8000_0000 then Word(msg) else Word(msg) - 0x1_0000_0000
  {
    hide BigEndianValue, BigEndian, Pow256;
    Pow256Of8();
    BigEndianRoundTrip(id, 4);
    FourOctets(BigEndian(id, 4));
    FourOctets(msg);
  }

  /** int32_to_ping_msg() */
  method WritePingMessage(id: nat, msg: array<byte>)
    requires msg.Length == 4
    modifies msg
    ensures msg[..] == PingMessage(id)
  {
    hide ByteOf, Octet, BigEndian;
    msg[0], msg[1], msg[2], msg[3] := Octet(id, 3), Octet(id, 2), Octet(id, 1), Octet(id, 0);
    BigEndianOctets(id, 4);
  }

  /** pong_msg_to_int32() */
  method ReadPongId(msg: array<byte>) returns (id: int)
    requires msg.Length >= 4
    ensures id == PongId(msg[..4])
  {
    hide Num;
    var n := Num(msg[3]) + 0x100 * Num(msg[2]) + 0x1_0000 * Num(msg[1]) + 0x100_0000 * Num(msg[0]);
    FourNums(msg[..4]);
    id := if n <= INT_MAX then n else n - 0x1_0000_0000;
  }

  lemma FourNums(s: seq<byte>)
    requires |s| == 4
    ensures BigEndianValue(s) == Num(s[3]) + 0x100 * Num(s[2]) + 0x1_0000 * Num(s[1]) + 0x100_0000 * Num(s[0])
  {
    hide Num;
    var a, b, c := s[..3], s[..2], s[..1];
    assert a[..2] == b && b[..1] == c && c[..0] == [];
    assert BigEndianValue(c) == Num(s[0]);
    assert BigEndianValue(b) == 0x100 * Num(s[0]) + Num(s[1]);
    assert BigEndianValue(a) == 0x1_0000 * Num(s[0]) + 0x100 * Num(s[1]) + Num(s[2]);
  }

  /**
    * send_ping_close() for an open connection: the next number goes out, and the connection is to be closed if that is
    * too far ahead of the last one that came back.
    */
  method SendPing(client: Socket, threshold: int) returns (close: bool)
    requires -1 <= client.currentPingId < INT_MAX
    modifies client`currentPingId, client`outgoing, client`sendFailed
    ensures client.currentPingId == old(client.currentPingId) + 1
    ensures var frame := ServerFrame(PING, PingMessage(client.currentPingId));
      if client.sendFailed && !old(client.sendFailed)
      then old(client.outgoing) <= client.outgoing <= old(client.outgoing) + frame
      else old(client.sendFailed) || client.outgoing == old(client.outgoing) + frame
    ensures close <==> client.currentPingId - client.lastPongId > threshold
  {
    hide ServerFrame;
    client.currentPingId := client.currentPingId + 1;
    var pingMsg := new byte[4];
    WritePingMessage(client.currentPingId, pingMsg);
    assert pingMsg[..4] == pingMsg[..];
    var output := Sending.SendFrame(client, pingMsg, 4, PING);
    close := client.currentPingId - client.lastPongId > threshold;
  }

  // ---------------------------------------------------------------- runs

  datatype Counters = Counters(current: int, last: int)

  datatype Event = Ping | Pong(payload: seq<byte>)

  const START := Counters(-1, -1)

  /** The counters of a connection after what was sent and received. */
  function Run(events: seq<Event>): Counters {
    if events == [] then START else
      var c, e := Run(events[..|events| - 1]), events[|events| - 1];
      match e
      case Ping => c.(current := c.current + 1)
      case Pong(payload) => c.(last := PongTaken(c.last, c.current, payload))
  }

  function Sent(events: seq<Event>): nat {
    if events == [] then 0 else Sent(events[..|events| - 1]) + if events[|events| - 1].Ping? then 1 else 0
  }

  /** How many PONGs have the size of an identifier. */
  function Answers(events: seq<Event>): nat {
    if events == [] then 0 else
      var e := events[|events| - 1];
      Answers(events[..|events| - 1]) + if e.Pong? && |e.payload| == 4 then 1 else 0
  }

  /** Every PING is answered in turn with its payload, if at all; other PONGs have other sizes. */
  predicate InTurn(events: seq<Event>) {
    events == [] ||
      var before, e := events[..|events| - 1], events[|events| - 1];
      && InTurn(before)
      && (e.Pong? && |e.payload| == 4 ==> Answers(before) < Sent(before) && e.payload == PingMessage(Answers(before)))
  }

  /** What is echoed is the number sent. */
  lemma EchoedId(id: nat)
    requires id <= INT_MAX
    ensures PongId(PingMessage(id)) == id
  {
    assert Pow256(2) == 0x1_0000;
    assert Pow256(4) == 0x1_0000_0000;
    BigEndianRoundTrip(id, 4);
  }

  /** Whatever the client sends, the last identifier is that of a PING that was sent, or none. */
  lemma {:induction false} CountersInOrder(events: seq<Event>)
    ensures var c := Run(events); -1 <= c.last <= c.current == Sent(events) - 1
  {
    if events != [] {
      hide PongId;
      CountersInOrder(events[..|events| - 1]);
    }
  }

  /** If the client answers in turn, the distance that ws_ping() looks at is the number of unanswered pings. */
  lemma {:induction false} Unanswered(events: seq<Event>)
    requires InTurn(events) && Sent(events) <= INT_MAX
    ensures Answers(events) <= Sent(events) && Run(events) == Counters(Sent(events) - 1, Answers(events) - 1)
  {
    if events != [] {
      hide PongId, PingMessage;
      var before := events[..|events| - 1];
      Unanswered(before);
      CountersInOrder(before);
      EchoedId(Answers(before));
    }
  }
}
