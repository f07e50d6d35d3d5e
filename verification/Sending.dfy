/** ws_sendframe() of ws.c: one server frame to one client. */
module Sending {
  import opened Bytes
  import opened Frames
  import opened Sockets

  const INT_MAX := 0x7FFF_FFFF

  /** Returns 0, the result of send_all(), on success: the documented count of octets written never appears. */
  method SendFrame(client: Socket, msg: array<byte>, size: nat, opcode: nat) returns (output: int)
    requires size <= msg.Length && opcode < 16 && 10 + size + 1 <= INT_MAX
    modifies client`outgoing, client`sendFailed
    ensures output == 0 || output == -1
    ensures output == 0 ==> client.sendFailed == old(client.sendFailed)
    ensures output == 0 ==> client.outgoing == old(client.outgoing) + ServerFrame(opcode, msg[..size])
    ensures output == -1 ==> client.sendFailed
    ensures output == -1 ==>
      old(client.outgoing) <= client.outgoing <= old(client.outgoing) + ServerFrame(opcode, msg[..size])
  {
    var response, idx := Response(msg, size, opcode);
    output := client.SendAll(response, idx);
  }

  /** A place in client_socks: whether it is in use, whether the connection is open, and the socket. */
  datatype Slot = Slot(used: bool, open: bool, socket: Socket) {
    predicate Listens() { used && open }
  }

  /**
    * ws_sendframe() without a client: one frame for every open connection, in the order of the places, up to the first
    * that fails. done counts the places that are through.
    */
  method Broadcast(clients: seq<Slot>, msg: array<byte>, size: nat, opcode: nat) returns (output: int, ghost done: nat)
    requires size <= msg.Length && opcode < 16 && 10 + size + 1 <= INT_MAX
    requires forall i, j :: 0 <= i < j < |clients| ==> clients[i].socket != clients[j].socket
    modifies (set i | 0 <= i < |clients| :: clients[i].socket)`outgoing
    modifies (set i | 0 <= i < |clients| :: clients[i].socket)`sendFailed
    ensures output == 0 <==> done == |clients|
    ensures output == 0 || (output == -1 && done < |clients|)
    ensures forall i :: 0 <= i < done ==>
      clients[i].socket.outgoing == old(clients[i].socket.outgoing) +
        if clients[i].Listens() then ServerFrame(opcode, msg[..size]) else []
    ensures forall i :: done < i < |clients| ==> clients[i].socket.outgoing == old(clients[i].socket.outgoing)
    ensures done < |clients| ==>
      var socket := clients[done].socket;
      && clients[done].Listens() && socket.sendFailed
      && old(socket.outgoing) <= socket.outgoing <= old(socket.outgoing) + ServerFrame(opcode, msg[..size])
  {
    hide ServerFrame;
    var response, idx := Response(msg, size, opcode);
    ghost var frame := ServerFrame(opcode, msg[..size]);
    output, done := 0, 0;
    var i := 0;
    while i < |clients|
      invariant i == done <= |clients| && output == 0 && response[..idx] == frame && idx <= response.Length
      invariant forall j :: 0 <= j < i ==>
        clients[j].socket.outgoing == old(clients[j].socket.outgoing) + if clients[j].Listens() then frame else []
      invariant forall j :: i <= j < |clients| ==> clients[j].socket.outgoing == old(clients[j].socket.outgoing)
    {
      if clients[i].used && clients[i].open {
        var sendRet := clients[i].socket.SendAll(response, idx);
        if sendRet == -1 {
          output := -1;
          return;
        }
        output := output + sendRet;
      }
      i, done := i + 1, done + 1;
    }
  }

  /** The frame followed by a NUL. */
  method Response(msg: array<byte>, size: nat, opcode: nat) returns (response: array<byte>, idx: nat)
    requires size <= msg.Length && opcode < 16
    ensures fresh(response) && idx + 1 == response.Length && response[idx] == 0
    ensures response[..idx] == ServerFrame(opcode, msg[..size])
  {
    var frame, first := Header(size, opcode);
    ghost var header := frame[..first];
    response := new byte[first + size + 1];
    idx := 0;
    for i := 0 to first
      invariant idx == i && frame[..first] == header && response[..i] == header[..i]
    {
      response[i] := frame[i];
      idx := idx + 1;
    }
    for i := 0 to size
      invariant idx == first + i && response[..idx] == header + msg[..i]
    {
      response[idx] := msg[i];
      idx := idx + 1;
    }
    response[idx] := 0;
  }

  /** The first octets of the frame, in the shortest length form. */
  method Header(size: nat, opcode: nat) returns (frame: array<byte>, first: nat)
    requires opcode < 16
    ensures fresh(frame) && first <= frame.Length == 10
    ensures frame[..first] == [ByteOf(128 + opcode)] + ServerLength(size)
  {
    hide ByteOf, BigEndian, Octet;
    frame := new byte[10];
    frame[0] := ByteOf(128 + opcode);
    if size <= 125 {
      frame[1] := ByteOf(size % 128);
      first := 2;
    } else if size <= 65535 {
      frame[1], frame[2], frame[3] := 126, Octet(size, 1), Octet(size, 0);
      first := 4;
      BigEndianOctets(size, 2);
      assert frame[2..4] == BigEndian(size, 2);
    } else {
      frame[1] := 127;
      frame[2], frame[3], frame[4], frame[5] := Octet(size, 7), Octet(size, 6), Octet(size, 5), Octet(size, 4);
      frame[6], frame[7], frame[8], frame[9] := Octet(size, 3), Octet(size, 2), Octet(size, 1), Octet(size, 0);
      first := 10;
      BigEndianOctets(size, 8);
      assert frame[2..10] == BigEndian(size, 8);
    }
  }
}
