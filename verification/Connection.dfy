/** struct ws_frame_data of ws.c with next_byte(), read_frame(), next_frame() and the loop that delivers messages. */
module Connection {
  import opened Wrappers
  import opened Bytes
  import opened Frames
  import opened Messages
  import opened Sockets
  import opened Sending
  import opened FrameOctets
  import opened Requests
  import Handshake
  import Pings
  import Utf8

  const MESSAGE_LENGTH := 2048

  /** msg_ctrl[125] with one more slot, for the NUL that follows a control payload of 125 octets. */
  const CTRL_LENGTH := 126

  /** realloc(): the old octets, in an array of the new size. */
  method Realloc(old_: array?<byte>, kept: nat, size: nat) returns (a: array<byte>)
    requires kept <= size && (old_ == null ==> kept == 0) && (old_ != null ==> kept <= old_.Length)
    ensures fresh(a) && a.Length == size
    ensures a[..kept] == if old_ == null then [] else old_[..kept]
  {
    a := new byte[size];
    if old_ != null {
      forall i | 0 <= i < kept {
        a[i] := old_[i];
      }
    }
  }

  /** How one frame leaves next_frame()'s loop: round again, done with a message, done with a CLOSE, or broken off. */
  datatype Verdict = Again | Complete | CloseSeen | Broken

  class FrameData {
    const client: Socket
    const frm: array<byte>
    const msgCtrl: array<byte>
    var msg: array?<byte>
    var curPos: nat
    var amtRead: nat
    var frameType: int
    var frameSize: nat
    var error: bool

    ghost predicate Valid()
      reads this
    {
      && frm.Length == MESSAGE_LENGTH && msgCtrl.Length == CTRL_LENGTH && frm != msgCtrl
      && curPos <= amtRead <= MESSAGE_LENGTH
      && (curPos == 0 ==> amtRead == 0)
    }

    /** The octets not yet handed out: the rest of the buffer, then what the socket will deliver. */
    ghost function Remaining(): seq<byte>
      requires Valid()
      reads this, frm, client
    {
      frm[curPos..amtRead] + client.incoming
    }

    /** As ws_establishconnection() prepares it: all octets are 0. */
    constructor (client: Socket)
      ensures Valid() && !error && curPos == 0 && this.client == client && fresh(frm) && fresh(msgCtrl)
      ensures frm[..] == seq(MESSAGE_LENGTH, _ => 0)
    {
      this.client := client;
      frm := new byte[MESSAGE_LENGTH](_ => 0);
      msgCtrl := new byte[CTRL_LENGTH](_ => 0);
      msg, curPos, amtRead := null, 0, 0;
      frameType, frameSize, error := NONE, 0, false;
    }

    /**
      * do_handshake(): one chunk of n octets is received; if it has a header with a key, the response is sent and the
      * stream goes on behind the header.
      */
    method DoHandshake() returns (ok: bool, ghost n: nat)
      requires Valid() && curPos == 0 && !client.sendFailed && frm[..] == seq(MESSAGE_LENGTH, _ => 0)
      modifies this`curPos, this`amtRead, frm, client`incoming, client`outgoing, client`sendFailed
      ensures Valid() && n <= |old(client.incoming)| && n < 2048
      ensures var text := CText(old(client.incoming)[..n]);
        && (ok <==> Acceptable(text) && !client.sendFailed)
        && if Acceptable(text) then
             var response := Handshake.ResponseTo(KeyIn(text).value);
             if ok then client.outgoing == old(client.outgoing) + response
             else old(client.outgoing) <= client.outgoing <= old(client.outgoing) + response
           else client.outgoing == old(client.outgoing) && !client.sendFailed
      ensures ok ==> var text := CText(old(client.incoming)[..n]);
        var p := FirstAt(text, EMPTY_LINE).value;
        KeyLine(HeadLines(text)).Some? ==> Remaining() == old(client.incoming)[p + 4..]
    {
      hide KeyIn, KeyLine, FirstAt, Handshake.ResponseTo, CText;
      ok, n := false, 0;
      ghost var s, zeros := client.incoming, frm[..];
      assert s[..0] == [];
      NothingAcceptable();
      var received := client.Recv(frm, frm.Length - 1);
      if received <= 0 {
        return;
      }
      n := received;
      assert frm[n] == zeros[n];
      ChunkStands(frm, s[..n]);
      ok := Answer(received, s[..n]);
      if ok {
        ghost var text := CText(s[..n]);
        ghost var p := FirstAt(text, EMPTY_LINE).value;
        assert s[p + 4..] == s[..n][p + 4..] + s[n..];
      }
    }

    /** The rest of do_handshake(), with the request in the buffer. */
    method Answer(received: nat, ghost chunk: seq<byte>) returns (ok: bool)
      requires Valid() && !client.sendFailed && received < MESSAGE_LENGTH && frm[..received] == chunk
      requires Stands(frm, 0, CText(chunk))
      modifies this`curPos, this`amtRead, frm, client`outgoing, client`sendFailed
      ensures Valid()
      ensures var text := CText(chunk);
        && (ok <==> Acceptable(text) && !client.sendFailed)
        && if Acceptable(text) then
             var response := Handshake.ResponseTo(KeyIn(text).value);
             if ok then client.outgoing == old(client.outgoing) + response
             else old(client.outgoing) <= client.outgoing <= old(client.outgoing) + response
           else client.outgoing == old(client.outgoing) && !client.sendFailed
      ensures ok ==> var p := FirstAt(CText(chunk), EMPTY_LINE).value;
        && curPos == p + 4 && amtRead == received
        && (KeyLine(HeadLines(CText(chunk))).Some? ==> frm[p + 4..received] == chunk[p + 4..])
    {
      hide KeyIn, KeyLine, AfterKeyLine, FirstAt, Handshake.ResponseTo, CText, Stands;
      ghost var text, all := CText(chunk), frm[..];
      var p := StrStr(frm, 0, EMPTY_LINE, text);
      ok := p.Some?;
      if !ok {
        return;
      }
      amtRead, curPos := received, p.value + 4;
      var response;
      ok, response := Handshake.GetHandshakeResponse(frm, text);
      if !ok {
        return;
      }
      ghost var answer, after := Handshake.ResponseTo(KeyIn(text).value), frm[..];
      var length := Length(response, 0, answer);
      ResponseStands(response, answer);
      var sent := client.SendAll(response, length);
      ok := sent == 0;
      if KeyLine(HeadLines(text)).Some? {
        RestStays(text, p.value);
        SameFrom(all, after, |text| - |AfterKeyLine(text)|, p.value + 4, received);
      }
    }

    /** next_byte(): the next octet of the stream, through a buffer that is refilled when it is used up. */
    method NextByte() returns (b: Option<byte>)
      requires Valid()
      modifies this`curPos, this`amtRead, this`error, frm, client`incoming
      ensures Valid()
      ensures old(Remaining()) == [] ==> b == None && error && Remaining() == []
      ensures old(Remaining()) != [] ==>
        b == Some(old(Remaining())[0]) && error == old(error) && Remaining() == old(Remaining())[1..]
    {
      if curPos == 0 || curPos == amtRead {
        assert frm[curPos..amtRead] == [];
        var n := client.Recv(frm, frm.Length);
        if n <= 0 {
          error := true;
          return None;
        }
        amtRead, curPos := n, 0;
        assert frm[..n] + client.incoming == old(client.incoming);
      }
      b := Some(frm[curPos]);
      assert frm[curPos..amtRead] == [frm[curPos]] + frm[curPos + 1..amtRead];
      curPos := curPos + 1;
    }

    /** k calls of next_byte() in a row; None when one of them failed. */
    method NextBytes(k: nat) returns (v: Option<seq<byte>>)
      requires Valid()
      modifies this`curPos, this`amtRead, this`error, frm, client`incoming
      ensures Valid()
      ensures k <= |old(Remaining())| ==>
        v == Some(old(Remaining())[..k]) && error == old(error) && Remaining() == old(Remaining())[k..]
      ensures k > |old(Remaining())| ==> v == None && error && Remaining() == []
    {
      ghost var s := Remaining();
      v := Some([]);
      for i := 0 to k
        invariant Valid()
        invariant i <= |s| ==> v == Some(s[..i]) && error == old(error) && Remaining() == s[i..]
        invariant i > |s| ==> v == None && error && Remaining() == []
      {
        assert i < |s| ==> s[..i] + [s[i]] == s[..i + 1];
        var b := NextByte();
        v := if v.Some? && b.Some? then Some(v.value + [b.value]) else None;
      }
    }

    /** The payload length: small itself, or the 16 or 64 bits that follow; all ones where they cannot be read. */
    method ReadLength(small: nat) returns (length: nat)
      requires Valid() && small < 128
      modifies this`curPos, this`amtRead, this`error, frm, client`incoming
      ensures Valid()
      ensures var s, e := old(Remaining()), ExtendedOctets(FormOf(small));
        if e <= |s| then length == BodyLength(small, s) && error == old(error) && Remaining() == s[e..]
        else length > MAX_LENGTH && error && Remaining() == []
    {
      length := small;
      if small == 126 || small == 127 {
        var octets := NextBytes(if small == 126 then 2 else 8);
        length := if octets.Some? then BigEndianValue(octets.value) else 0xFFFF_FFFF_FFFF_FFFF;
      }
    }

    /** The copy loop of read_frame(): n payload octets, unmasked, into a from idx on. */
    method CopyPayload(a: array<byte>, idx: nat, key: seq<byte>, n: nat) returns (ok: bool)
      requires Valid() && a != frm && idx + n <= a.Length && |key| == 4
      modifies this`curPos, this`amtRead, this`error, frm, client`incoming, a
      ensures Valid()
      ensures ok <==> n <= |old(Remaining())|
      ensures ok ==> error == old(error) && Remaining() == old(Remaining())[n..]
      ensures ok ==> a[idx..idx + n] == Masked(key, old(Remaining())[..n])
      ensures !ok ==> error
      ensures a[..idx] == old(a[..idx])
    {
      ghost var s := Remaining();
      var i := 0;
      while i < n
        invariant i <= n && i <= |s| && Valid() && error == old(error) && Remaining() == s[i..]
        invariant a[..idx] == old(a[..idx])
        invariant forall j :: 0 <= j < i ==> a[idx + j] == s[j] ^ key[j % 4]
      {
        var b := NextByte();
        if b == None {
          return false;
        }
        a[idx + i] := b.value ^ key[i % 4];
        i := i + 1;
      }
      return true;
    }

    /** The buffer a payload is read into: the fixed one for control frames, the growing one for data. */
    ghost predicate BufferFor(opcode: nat, buf: array?<byte>, idx: nat)
      reads this
    {
      if IsControl(opcode) then buf == msgCtrl && idx == 0
      else buf != msgCtrl && buf != frm && (buf == null <==> idx == 0) && (buf != null ==> idx <= buf.Length)
    }

    /** The first half of read_frame(): the length, the limit on the message, the masks. */
    method ReadHeader(small: nat, size: nat) returns (ok: bool, length: nat, key: seq<byte>)
      requires Valid() && small < 128
      modifies this`curPos, this`amtRead, this`error, frm, client`incoming
      ensures Valid() && (error <==> !ok)
      ensures var s, e := old(Remaining()), ExtendedOctets(FormOf(small));
        && (ok <==> !old(error) && e + 4 <= |s| && size + BodyLength(small, s) <= MAX_LENGTH)
        && (ok ==> length == BodyLength(small, s) && key == s[e..e + 4] && Remaining() == s[e + 4..])
    {
      ok, key := false, [];
      length := ReadLength(small);
      if size + length > MAX_LENGTH {
        error := true;
        return;
      }
      var masks := NextBytes(4);
      if error {
        return;
      }
      ok, key := true, masks.value;
    }

    /** The second half of read_frame(): the payload behind the idx octets in buf, and a NUL behind a final frame. */
    method StorePayload(opcode: nat, buf: array?<byte>, key: seq<byte>, length: nat, idx: nat, isFin: bool)
      returns (ok: bool, buf': array?<byte>)
      requires Valid() && !error && BufferFor(opcode, buf, idx) && |key| == 4
      requires IsControl(opcode) ==> length <= 125
      modifies this`curPos, this`amtRead, this`error, frm, client`incoming, msgCtrl
      ensures Valid() && (error <==> !ok)
      ensures var s := old(Remaining()); ok <==> length <= |s|
      ensures ok ==> Remaining() == old(Remaining())[length..]
      ensures ok ==> Holds(buf', old(Text(buf, idx)) + Masked(key, old(Remaining())[..length]), isFin)
      ensures if IsControl(opcode) then buf' == buf else buf' == buf || (buf' != null && fresh(buf'))
      ensures ok && !IsControl(opcode) ==> BufferFor(opcode, buf', idx + length)
    {
      ghost var s, text := Remaining(), Text(buf, idx);
      buf', ok := buf, true;
      if length > 0 {
        if !IsControl(opcode) {
          buf' := Realloc(buf', idx, idx + length + if isFin then 1 else 0);
        }
        ok := CopyPayload(buf', idx, key, length);
        if !ok {
          return;
        }
        assert buf'[..idx + length] == buf'[..idx] + buf'[idx..idx + length];
      }
      ghost var data := text + Masked(key, s[..length]);
      assert Text(buf', idx + length) == data;
      if isFin && idx + length > 0 {
        if length == 0 && !IsControl(opcode) {
          buf' := Realloc(buf', idx, idx + 1);
        }
        assert buf'[..idx + length] == data;
        buf'[idx + length] := 0;
        assert buf'[..idx + length] == data;
      }
    }

    /** read_frame(): the rest of a frame, its payload unmasked behind the idx octets already in buf. */
    method ReadFrame(opcode: nat, buf: array?<byte>, small: nat, size: nat, idx: nat, isFin: bool)
      returns (ok: bool, buf': array?<byte>, length: nat, size': nat, idx': nat)
      requires Valid() && small < 128 && BufferFor(opcode, buf, idx) && size == idx
      requires IsControl(opcode) ==> small <= 125 && isFin
      modifies this`curPos, this`amtRead, this`error, frm, client`incoming, msgCtrl
      ensures Valid() && (error <==> !ok)
      ensures var body := ParseBody(small, old(Remaining()));
        ok <==> !old(error) && body.Parsed? && size + |body.value.payload| <= MAX_LENGTH
      ensures ok ==> var body := ParseBody(small, old(Remaining()));
        && length == |body.value.payload| && size' == idx' == idx + length && Remaining() == body.rest
        && Holds(buf', old(Text(buf, idx)) + body.value.payload, isFin)
      ensures if IsControl(opcode) then buf' == buf else buf' == buf || (buf' != null && fresh(buf'))
      ensures ok && !IsControl(opcode) ==> BufferFor(opcode, buf', idx')
    {
      hide Masked, BigEndianValue, Pow256;
      ghost var s, e := Remaining(), ExtendedOctets(FormOf(small));
      buf', size', idx' := buf, size, idx;
      var key;
      ok, length, key := ReadHeader(small, size);
      if !ok {
        return;
      }
      assert length <= |s[e + 4..]| ==> s[e + 4..][..length] == s[e + 4..e + 4 + length];
      ok, buf' := StorePayload(opcode, buf, key, length, idx, isFin);
      size', idx' := size + length, idx + length;
    }

    /** do_close() with a close code of the server's own. */
    method SendClose(code: nat) returns (r: int)
      requires Valid() && code < 0x1_0000
      modifies msgCtrl, client`outgoing, client`sendFailed
      ensures Valid() && (r == 0 || r == -1)
      ensures r == 0 ==> client.sendFailed == old(client.sendFailed)
      ensures r == 0 ==> client.outgoing == old(client.outgoing) + ServerFrame(CLOSE, [Octet(code, 1), Octet(code, 0)])
      ensures r == -1 ==> client.sendFailed && old(client.outgoing) <= client.outgoing
      ensures r == -1 ==> client.outgoing <= old(client.outgoing) + ServerFrame(CLOSE, [Octet(code, 1), Octet(code, 0)])
    {
      msgCtrl[0], msgCtrl[1] := Octet(code, 1), Octet(code, 0);
      assert msgCtrl[..2] == [Octet(code, 1), Octet(code, 0)];
      r := SendFrame(client, msgCtrl, 2, CLOSE);
    }

    /** The assembly that next_frame() keeps between two frames: type, data and UTF-8 state. */
    ghost predicate Holding(data: seq<byte>, msgData: array?<byte>, idx: nat, utf8State: Utf8.State)
      reads this, msgData
    {
      && BufferFor(CONT, msgData, idx)
      && frameSize == idx && Text(msgData, idx) == data
      && utf8State == (if frameType == TEXT then Utf8.Run(Utf8.ACCEPT, data) else Utf8.ACCEPT)
    }

    /** The branch of next_frame() for text, binary and continuation frames, behind the two header octets. */
    method DataFrame(opcode: nat, msgData: array?<byte>, small: nat, idx: nat, isFin: bool, utf8State: Utf8.State,
                     ghost data: seq<byte>)
      returns (msgData': array?<byte>, idx': nat, utf8State': Utf8.State)
      requires Valid() && !client.sendFailed && small < 128 && !IsControl(opcode)
        && Holding(data, msgData, idx, utf8State)
      modifies this`curPos, this`amtRead, this`error, this`frameSize, frm, msgCtrl, client
      ensures Valid() && frameType == old(frameType)
      ensures var s := old(Remaining());
        var body := ParseBody(small, s);
        if old(error) || body.Truncated? || |data| + |body.value.payload| > MAX_LENGTH then
          error && !client.sendFailed && client.outgoing == old(client.outgoing)
        else if frameType == TEXT && !TextOk(isFin, data + body.value.payload) then
          && error && old(client.outgoing) <= client.outgoing <= old(client.outgoing) + ServerFrame(CLOSE, INVALID_UTF8)
          && (!client.sendFailed ==> client.outgoing == old(client.outgoing) + ServerFrame(CLOSE, INVALID_UTF8))
        else
          && !error && !client.sendFailed && client.outgoing == old(client.outgoing) && Remaining() == body.rest
          && var data' := data + body.value.payload;
             && Holds(msgData', data', isFin) && BufferFor(CONT, msgData', idx') && idx' == |data'| && frameSize == idx'
             && (!isFin ==> Holding(data', msgData', idx', utf8State'))
      ensures msgData' == msgData || (msgData' != null && fresh(msgData'))
    {
      hide Utf8.Run, Utf8.Octets, ParseBody, ServerFrame;
      utf8State' := utf8State;
      var ok, length, size;
      ok, msgData', length, size, idx' := ReadFrame(opcode, msgData, small, frameSize, idx, isFin);
      frameSize := size;
      if ok && frameType == TEXT {
        ghost var payload := ParseBody(small, old(Remaining())).value.payload;
        assert (if msgData' == null then [] else msgData'[idx' - length..idx']) == payload;
        utf8State' := Utf8.IsUtf8LenState(if msgData' == null then [] else msgData'[idx' - length..idx'], utf8State);
        Utf8.RunConcat(Utf8.ACCEPT, data, payload);
        Utf8.AcceptIffGrammar(data + payload);
        Utf8.RejectIffNotViable(data + payload);
        if if isFin then utf8State' != Utf8.ACCEPT else utf8State' == Utf8.REJECT {
          error := true;
          Code1007();
          var closed := SendClose(1007);
        }
      }
    }

    /** A PING: read it and answer it with do_pong(). */
    method PingFrame(small: nat) returns (ok: bool)
      requires Valid() && !client.sendFailed && small <= 125
      modifies this`curPos, this`amtRead, this`error, frm, msgCtrl, client
      ensures Valid() && (error <==> !ok) && (client.sendFailed ==> !ok)
      ensures var body := ParseBody(small, old(Remaining()));
        if old(error) || body.Truncated? then !ok && !client.sendFailed && client.outgoing == old(client.outgoing)
        else
          var pong := ServerFrame(PONG, body.value.payload);
          && (ok <==> !client.sendFailed) && old(client.outgoing) <= client.outgoing <= old(client.outgoing) + pong
          && (ok ==> client.outgoing == old(client.outgoing) + pong && Remaining() == body.rest)
    {
      hide ParseBody, ServerFrame;
      var buf, length, size, idx;
      ParseBodyShort(small, Remaining());
      ok, buf, length, size, idx := ReadFrame(PING, msgCtrl, small, 0, 0, true);
      if ok {
        assert msgCtrl[..size] == ParseBody(small, old(Remaining())).value.payload;
        var r := SendFrame(client, msgCtrl, size, PONG);
        if r < 0 {
          error, ok := true, false;
        }
      }
    }

    /** A PONG: read it, and note its identifier if it is that of a PING that was sent. */
    method PongFrame(small: nat) returns (ok: bool)
      requires Valid() && small <= 125
      modifies this`curPos, this`amtRead, this`error, frm, msgCtrl, client`incoming, client`lastPongId
      ensures Valid() && (error <==> !ok)
      ensures var body := ParseBody(small, old(Remaining()));
        && (ok <==> !old(error) && body.Parsed?) && (ok ==> Remaining() == body.rest)
        && client.lastPongId == if ok then
             Pings.PongTaken(old(client.lastPongId), client.currentPingId, body.value.payload)
           else old(client.lastPongId)
    {
      hide ParseBody;
      var buf, length, size, idx;
      ParseBodyShort(small, Remaining());
      ok, buf, length, size, idx := ReadFrame(PONG, msgCtrl, small, 0, 0, true);
      if !ok || size != 4 {
        return;
      }
      assert msgCtrl[..4] == ParseBody(small, old(Remaining())).value.payload;
      var pongId := Pings.ReadPongId(msgCtrl);
      if pongId < 0 || pongId > client.currentPingId {
        return;
      }
      client.lastPongId := pongId;
    }

    /** A CLOSE: read it, check its reason, and let it replace the message under way. */
    method CloseFrame(small: nat) returns (ok: bool)
      requires Valid() && small <= 125
      modifies this`curPos, this`amtRead, this`error, this`frameSize, this`frameType, frm, msgCtrl, client`incoming
      ensures Valid() && (error <==> !ok)
      ensures var body := ParseBody(small, old(Remaining()));
        && (ok <==> !old(error) && body.Parsed? && ReasonOk(body.value.payload))
        && (ok ==> Remaining() == body.rest && frameType == CLOSE && frameSize == |body.value.payload|
                   && Holds(msgCtrl, body.value.payload, true))
    {
      hide ParseBody, Utf8.Octets;
      var buf, length, size, idx;
      ParseBodyShort(small, Remaining());
      ok, buf, length, size, idx := ReadFrame(CLOSE, msgCtrl, small, 0, 0, true);
      if ok {
        ghost var reason := ParseBody(small, old(Remaining())).value.payload;
        assert msgCtrl[..size] == reason;
        if size > 2 {
          assert msgCtrl[2..size] == reason[2..];
          var valid := Utf8.IsUtf8Len(msgCtrl[2..size]);
          if !valid {
            error, ok := true, false;
            return;
          }
        }
        frameSize, frameType := size, CLOSE;
      }
    }

    /** The state in which a frame leaves the loop, against the outcome o of the stream from that frame on. */
    ghost predicate Leaves(verdict: Verdict, o: Outcome, sent: seq<byte>, closing: bool,
                           msgData: array?<byte>, idx: nat, utf8State: Utf8.State, data: seq<byte>)
      requires Valid()
      reads this, frm, msgCtrl, client, msgData
    {
      match verdict
      case Again =>
        && o == Receive(Remaining(), frameType, data, closing).After(sent)
        && frameType in {NONE, TEXT, BINARY} && (frameType == NONE ==> data == [])
          && Holding(data, msgData, idx, utf8State)
      case Complete =>
        && o == Message(frameType, data, sent, Remaining()) && BufferFor(CONT, msgData, idx) && idx == |data|
        && Holds(msgData, data, true) && frameSize == |data|
      case CloseSeen =>
        && o == Closed(data, sent, Remaining()) && frameType == CLOSE && frameSize == |data|
          && Holds(msgCtrl, data, true)
      case Broken =>
        if client.sendFailed then sent <= o.sent else o == Failed(sent)
    }

    /** One round of next_frame()'s loop, behind the two header octets of a frame that may come next. */
    method FrameBody(opcode: nat, isFin: bool, small: nat, closing: bool, msgData: array?<byte>, idx: nat,
      utf8State: Utf8.State, ghost s: seq<byte>, ghost kind: int, ghost data: seq<byte>)
      returns (verdict: Verdict, msgData': array?<byte>, idx': nat, utf8State': Utf8.State, ghost data': seq<byte>)
      requires Valid() && !client.sendFailed && small < 128 && Holding(data, msgData, idx, utf8State)
      requires s != [] && opcode == Opcode(s[0]) && (isFin <==> IsFin(s[0])) && !HeadRefused(s[0], kind, closing)
      requires if error then |s| < 2 && !IsControl(opcode)
        else |s| >= 2 && small == SmallLengthOf(s[1]) && Remaining() == s[2..]
      requires IsControl(opcode) ==> isFin && small <= 125
      requires frameType == (if opcode == CONT || IsControl(opcode) then kind else opcode)
      requires kind in {NONE, TEXT, BINARY} && (kind == NONE ==> data == [])
      modifies this`curPos, this`amtRead, this`error, this`frameType, this`frameSize, frm, msgCtrl, client
      ensures Valid() && (error <==> verdict == Broken) && (client.sendFailed ==> verdict == Broken)
      ensures msgData' == msgData || (msgData' != null && fresh(msgData'))
      ensures old(client.outgoing) <= client.outgoing
      ensures var o, sent := Receive(s, kind, data, closing), client.outgoing[|old(client.outgoing)|..];
        Leaves(verdict, o, sent, closing, msgData', idx', utf8State', data')
      ensures verdict == Again ==> |Remaining()| < |s|
    {
      hide Receive, ParseFrame, ParseBody, Legal, ServerFrame, TextOk, ReasonOk, Utf8.Octets, Utf8.Run,
        SmallLengthOf, IsFin, HasRsv, Opcode, Holds, Outcome.After;
      msgData', idx', utf8State', data' := msgData, idx, utf8State, data;
      if IsControl(opcode) {
        verdict, data' := ControlBody(opcode, small, closing, msgData, idx, utf8State, s, kind, data);
        return;
      }
      if error {
        RefusedAtLength(s, kind, data, closing);
      } else {
        ReceiveByOpcode(s, kind, data, closing);
      }
      ghost var body := ParseBody(small, Remaining());
      msgData', idx', utf8State' := DataFrame(opcode, msgData, small, idx, isFin, utf8State, data);
      data' := data + if body.Parsed? then body.value.payload else [];
      verdict := if error then Broken else if isFin then Complete else Again;
      AfterNothing(Receive(Remaining(), frameType, data', closing));
      ghost var o, sent := Receive(s, kind, data, closing), client.outgoing[|old(client.outgoing)|..];
      if error {
        assert if client.sendFailed then sent <= o.sent else o == Failed(sent);
      } else {
        assert sent == [];
      }
    }

    /** The branches for PONG, PING and CLOSE; the message under way stays as it is. */
    method ControlBody(opcode: nat, small: nat, closing: bool, ghost msgData: array?<byte>, ghost idx: nat,
                       ghost utf8State: Utf8.State, ghost s: seq<byte>, ghost kind: int, ghost data: seq<byte>)
      returns (verdict: Verdict, ghost data': seq<byte>)
      requires Valid() && !error && !client.sendFailed && small <= 125 && Holding(data, msgData, idx, utf8State)
      requires |s| >= 2 && opcode == Opcode(s[0]) && IsFin(s[0]) && IsControl(opcode)
        && !HeadRefused(s[0], kind, closing)
      requires small == SmallLengthOf(s[1]) && Remaining() == s[2..] && frameType == kind
      requires kind in {NONE, TEXT, BINARY} && (kind == NONE ==> data == [])
      modifies this`curPos, this`amtRead, this`error, this`frameType, this`frameSize, frm, msgCtrl, client
      ensures Valid() && (error <==> verdict == Broken) && (client.sendFailed ==> verdict == Broken)
      ensures old(client.outgoing) <= client.outgoing
      ensures var o, sent := Receive(s, kind, data, closing), client.outgoing[|old(client.outgoing)|..];
        Leaves(verdict, o, sent, closing, msgData, idx, utf8State, data')
      ensures verdict == Again ==> |Remaining()| < |s|
    {
      hide Receive, ParseFrame, ParseBody, Legal, ServerFrame, TextOk, ReasonOk, Utf8.Octets, Utf8.Run,
        SmallLengthOf, IsFin, HasRsv, Opcode, HeadRefused, Holds;
      ReceiveByOpcode(s, kind, data, closing);
      verdict, data' := Broken, data;
      ghost var body := ParseBody(small, Remaining());
      if opcode == PONG {
        var ok := PongFrame(small);
        verdict := if ok then Again else Broken;
        AfterNothing(Receive(Remaining(), kind, data, closing));
      } else if opcode == PING {
        var ok := PingFrame(small);
        verdict := if ok then Again else Broken;
      } else {
        var ok := CloseFrame(small);
        if ok {
          verdict, data' := CloseSeen, body.value.payload;
        }
      }
    }

    /** One round of next_frame()'s loop. */
    method OneFrame(closing: bool, msgData: array?<byte>, idx: nat, utf8State: Utf8.State, ghost data: seq<byte>)
      returns (verdict: Verdict, msgData': array?<byte>, idx': nat, utf8State': Utf8.State, ghost data': seq<byte>)
      requires Valid() && !error && !client.sendFailed && Holding(data, msgData, idx, utf8State)
      requires frameType in {NONE, TEXT, BINARY} && (frameType == NONE ==> data == [])
      modifies this`curPos, this`amtRead, this`error, this`frameType, this`frameSize, frm, msgCtrl, client
      ensures Valid() && (error <==> verdict == Broken) && (client.sendFailed ==> verdict == Broken)
      ensures msgData' == msgData || (msgData' != null && fresh(msgData'))
      ensures old(client.outgoing) <= client.outgoing
      ensures var o, sent := Receive(old(Remaining()), old(frameType), data, closing),
        client.outgoing[|old(client.outgoing)|..];
        Leaves(verdict, o, sent, closing, msgData', idx', utf8State', data')
      ensures verdict == Again ==> |Remaining()| < |old(Remaining())|
    {
      hide Receive, ServerFrame, Utf8.Octets, Utf8.Run, SmallLengthOf, IsFin, Opcode, HeadRefused, Holds;
      ghost var s, kind := Remaining(), frameType;
      var ok, isFin, opcode, small := ReadHead(closing, data);
      RunNothing();
      if ok {
        verdict, msgData', idx', utf8State', data' :=
          FrameBody(opcode, isFin, small, closing, msgData, idx, utf8State, s, kind, data);
      } else {
        msgData', idx', utf8State', data', verdict := msgData, idx, utf8State, data, Broken;
      }
    }

    /** The two header octets, and the checks that break the loop before anything more is read. */
    method ReadHead(closing: bool, ghost data: seq<byte>) returns (ok: bool, isFin: bool, opcode: nat, small: nat)
      requires Valid() && !error
      modifies this`curPos, this`amtRead, this`error, this`frameType, frm, client`incoming
      ensures Valid() && small < 128
      ensures var s, kind := old(Remaining()), old(frameType);
        if ok then
          && s != [] && opcode == Opcode(s[0]) && (isFin <==> IsFin(s[0])) && !HeadRefused(s[0], kind, closing)
          && (if error then |s| < 2 && !IsControl(opcode)
              else |s| >= 2 && small == SmallLengthOf(s[1]) && Remaining() == s[2..])
          && (IsControl(opcode) ==> isFin && small <= 125)
          && (if opcode == CONT || IsControl(opcode) then frameType == kind else frameType == opcode && kind == NONE)
        else error && Receive(s, kind, data, closing) == Failed([])
    {
      hide Receive, SmallLengthOf, IsFin, Opcode, HeadRefused;
      ghost var s, kind := Remaining(), frameType;
      ok, isFin, opcode, small := false, false, 0, 0;
      var cur := NextByte();
      if cur == None {
        RefusedAtHead(s, kind, data, closing);
        return;
      }
      ok, isFin, opcode := CheckHead(cur.value, closing);
      if !ok {
        RefusedAtHead(s, kind, data, closing);
        return;
      }
      var mask := NextByte();
      small := if mask == None then 127 else SmallLengthOf(mask.value);
      if IsControl(opcode) && (!isFin || small > 125) {
        RefusedAtLength(s, kind, data, closing);
        error, ok := true, false;
      }
    }

    /** The checks on the first octet of a frame: reserved bits, order of frames, opcode, connection state. */
    method CheckHead(head: byte, closing: bool) returns (ok: bool, isFin: bool, opcode: nat)
      requires !error
      modifies this`error, this`frameType
      ensures ok <==> !HeadRefused(head, old(frameType), closing)
      ensures error <==> !ok
      ensures (isFin <==> IsFin(head)) && opcode == Opcode(head)
      ensures ok ==> if opcode == CONT || IsControl(opcode) then frameType == old(frameType)
                     else frameType == opcode && old(frameType) == NONE
    {
      isFin, opcode := (head >> 7) != 0, Num(head & 0xF);
      HeadParts(head);
      ok := false;
      if head & 0x70 != 0 {
        error := true;
        return;
      }
      if (frameType == NONE && opcode == CONT) || (frameType != NONE && !IsControl(opcode) && opcode != CONT) {
        error := true;
        return;
      }
      if opcode == TEXT || opcode == BINARY || opcode == CONT || opcode == PING || opcode == PONG || opcode == CLOSE {
        if closing && opcode != CLOSE {
          error := true;
          return;
        }
        if opcode != CONT && !IsControl(opcode) {
          frameType := opcode;
        }
        ok := true;
      } else {
        frameType := opcode;
        error := true;
      }
    }

    /**
     * next_frame(): frames until a message is complete, a CLOSE arrives, or something is wrong. While sends succeed,
     * the result is the outcome of the stream; a failed send ends the call with -1.
     */
    method NextFrame(closing: bool) returns (r: int)
      requires Valid() && !error && !client.sendFailed
      modifies this, frm, msgCtrl, client
      ensures Valid() && (r == 0 || r == -1) && (error <==> r == -1) && old(client.outgoing) <= client.outgoing
      ensures var o, sent := Receive(old(Remaining()), NONE, [], closing), client.outgoing[|old(client.outgoing)|..];
        if client.sendFailed then
          r == -1 && msg == null && sent <= o.sent
        else
          && o.sent == sent
          && match o
             case Failed(_) => r == -1 && msg == null
             case Message(kind, data, _, rest) =>
               && r == 0 && frameType == kind && frameSize == |data| && Remaining() == rest
               && (msg == null <==> data == []) && Holds(msg, data, true) && msg != frm && msg != msgCtrl
             case Closed(reason, _, rest) =>
               && r == 0 && frameType == CLOSE && frameSize == |reason| && Remaining() == rest
               && msg == null && Holds(msgCtrl, reason, true)
      ensures !closing && !client.sendFailed ==>
        Heard(old(Remaining()), client.outgoing[|old(client.outgoing)|..], r)
    {
      hide Receive, Utf8.Run, Heard, Outcome.After;
      var msgData: array?<byte>, idx, utf8State: Utf8.State, verdict := null, 0, Utf8.ACCEPT, Again;
      frameSize, frameType, msg := 0, NONE, null;
      ghost var data: seq<byte> := [];
      ghost var o := Receive(Remaining(), NONE, [], closing);
      AfterNothing(o);
      assert client.outgoing[|old(client.outgoing)|..] == [];
      while verdict == Again
        invariant Valid() && (error <==> verdict == Broken) && (client.sendFailed ==> verdict == Broken)
        invariant old(client.outgoing) <= client.outgoing && msg == null && (msgData == null || fresh(msgData))
        invariant Leaves(verdict, o, client.outgoing[|old(client.outgoing)|..], closing, msgData, idx, utf8State, data)
        decreases if verdict == Again then 1 + |Remaining()| else 0
      {
        ghost var before := client.outgoing;
        ghost var sent := before[|old(client.outgoing)|..];
        ghost var next := Receive(Remaining(), frameType, data, closing);
        verdict, msgData, idx, utf8State, data := OneFrame(closing, msgData, idx, utf8State, data);
        LeavesAfter(verdict, o, next, sent, client.outgoing[|before|..], closing, msgData, idx, utf8State, data);
        assert client.outgoing[|old(client.outgoing)|..] == sent + client.outgoing[|before|..];
      }
      r := if error then -1 else 0;
      if verdict == Complete {
        msg := msgData;
      }
      if !closing && !client.sendFailed {
        OutcomeHeard(old(Remaining()), o, client.outgoing[|old(client.outgoing)|..], r);
      }
    }

    /**
      * What a call does if the stream s begins with a whole message, in octets: FIN, an opcode of 1 or 2, and n octets
      * behind the key at e. A PING is answered first.
      */
    ghost predicate Heard(s: seq<byte>, sent: seq<byte>, r: int)
      requires Valid()
      reads this, frm, msgCtrl, client, msg
    {
      forall e: nat, n: nat :: FrameAt(s, e, n) && n <= 16777216 ==>
        var p := PayloadAt(s, e, n);
        && (s[0] == 0x82 || (s[0] == 0x81 && Utf8.Octets(p)) ==>
              && r == 0 && sent == [] && frameType == (if s[0] == 0x82 then 2 else 1) && frameSize == n
              && Holds(msg, p, true) && Remaining() == s[e + 4 + n..])
        && (s[0] == 0x81 && !Utf8.Octets(p) ==> r == -1 && sent == [0x88, 2, 3, 0xEF])
        && (s[0] == 0x89 && e == 2 ==> [0x8A, s[1] & 0x7F] + p <= sent)
    }

    lemma OutcomeHeard(s: seq<byte>, o: Outcome, sent: seq<byte>, r: int)
      requires Valid() && o == Receive(s, NONE, [], false) && o.sent == sent
      requires match o
        case Failed(_) => r == -1
        case Message(kind, data, _, rest) =>
          r == 0 && frameType == kind && frameSize == |data| && Remaining() == rest && Holds(msg, data, true)
        case Closed(_, _, _) => true
      ensures Heard(s, sent, r)
    {
      hide Receive, FrameAt, Utf8.Octets, Holds;
      forall e: nat, n: nat | FrameAt(s, e, n) && n <= 16777216
        ensures e + 4 + n <= |s|
        ensures var p := PayloadAt(s, e, n);
          && (s[0] == 0x82 || (s[0] == 0x81 && Utf8.Octets(p)) ==>
                && r == 0 && sent == [] && frameType == (if s[0] == 0x82 then 2 else 1) && frameSize == n
                && Holds(msg, p, true) && Remaining() == s[e + 4 + n..])
          && (s[0] == 0x81 && !Utf8.Octets(p) ==> r == -1 && sent == [0x88, 2, 3, 0xEF])
          && (s[0] == 0x89 && e == 2 ==> [0x8A, s[1] & 0x7F] + p <= sent)
      {
        LongEnough(s, e, n);
        WholeMessage(s, e, n);
        FrameReacts(s, e, n, -1, [], false);
      }
    }

    lemma LeavesAfter(verdict: Verdict, o: Outcome, next: Outcome, earlier: seq<byte>, sent: seq<byte>, closing: bool,
                      msgData: array?<byte>, idx: nat, utf8State: Utf8.State, data: seq<byte>)
      requires Valid() && o == next.After(earlier)
      requires Leaves(verdict, next, sent, closing, msgData, idx, utf8State, data)
      ensures Leaves(verdict, o, earlier + sent, closing, msgData, idx, utf8State, data)
    {
      hide Receive, Utf8.Run;
      if verdict == Again {
        AfterAfter(Receive(Remaining(), frameType, data, closing), earlier, sent);
      }
    }

    /** do_close() for a CLOSE that has just been read: its reason is in msgCtrl. */
    method ReplyClose() returns (r: int)
      requires Valid() && frameSize <= 125
      modifies msgCtrl, client`outgoing, client`sendFailed
      ensures Valid() && (r == 0 || r == -1)
      ensures r == 0 ==> client.sendFailed == old(client.sendFailed)
      ensures r == 0 ==> client.outgoing == old(client.outgoing) + CloseReply(old(msgCtrl[..frameSize]))
      ensures r == -1 ==> client.sendFailed && old(client.outgoing) <= client.outgoing
      ensures r == -1 ==> client.outgoing <= old(client.outgoing) + CloseReply(old(msgCtrl[..frameSize]))
    {
      hide ServerFrame, Octet;
      ghost var reason := msgCtrl[..frameSize];
      if frameSize == 1 || frameSize == 2 {
        var cc := if frameSize == 1 then Num(msgCtrl[0]) else 256 * Num(msgCtrl[0]) + Num(msgCtrl[1]);
        CodeOf(reason);
        if (cc < 1000 || cc > 1003) && (cc < 1007 || cc > 1011) && (cc < 3000 || cc > 4999) {
          Code1002();
          r := SendClose(1002);
          return;
        }
      }
      r := SendFrame(client, msgCtrl, frameSize, CLOSE);
    }

    /** The loop of ws_establishconnection() over an open connection; log is what onmessage was called with. */
    method Serve() returns (log: seq<(int, seq<byte>)>)
      requires Valid() && !error && !client.sendFailed
      modifies this, frm, msgCtrl, client
      ensures Valid()
      ensures old(client.outgoing) <= client.outgoing
      ensures var service, sent := Session(old(Remaining())), client.outgoing[|old(client.outgoing)|..];
        if client.sendFailed then log <= service.messages && sent <= service.sent
        else service == Service(log, sent)
    {
      hide Receive, ServerFrame, CloseReply, Service.After;
      log := [];
      ghost var service, sent: seq<byte> := Session(Remaining()), [];
      ServiceAfterNothing(service);
      while true
        invariant Valid() && !error && !client.sendFailed && client.outgoing == old(client.outgoing) + sent
        invariant service == Session(Remaining()).After(log, sent)
        decreases |Remaining()|
      {
        ghost var s, before := Remaining(), client.outgoing;
        ghost var o, rest := Receive(s, NONE, [], false), Session(s);
        OutcomeShape(s, NONE, [], false);
        var r := NextFrame(false);
        ghost var now := client.outgoing[|before|..];
        assert client.outgoing == old(client.outgoing) + (sent + now);
        if r < 0 {
          ServiceParts(rest, log, sent);
          SessionStartsWith(s);
          return;
        }
        if frameType == CLOSE {
          assert msgCtrl[..frameSize] == o.reason;
          var closed := ReplyClose();
          ServiceParts(rest, log, sent);
          PrefixTail(old(client.outgoing), sent, now, CloseReply(o.reason), client.outgoing);
          return;
        }
        ghost var item := (o.kind, o.data);
        ServiceAfterAfter(Session(Remaining()), log, sent, [item], now);
        log, sent := log + [(frameType, if msg == null then [] else msg[..frameSize])], sent + now;
      }
    }
  }

  /** ws_establishconnection(): the handshake, and then the session that follows it in the stream. */
  method Establish(client: Socket) returns (log: seq<(int, seq<byte>)>, ghost n: nat)
    requires !client.sendFailed
    modifies client
    ensures n <= |old(client.incoming)| && n < 2048 && old(client.outgoing) <= client.outgoing
    ensures var text, sent := CText(old(client.incoming)[..n]), client.outgoing[|old(client.outgoing)|..];
      if Acceptable(text) then
        var p, response := FirstAt(text, EMPTY_LINE).value, Handshake.ResponseTo(KeyIn(text).value);
        KeyLine(HeadLines(text)).Some? ==>
          var service := Session(old(client.incoming)[p + 4..]);
          if client.sendFailed then log <= service.messages && sent <= response + service.sent
          else log == service.messages && sent == response + service.sent
      else log == [] && sent == []
  {
    hide KeyIn, KeyLine, FirstAt, Handshake.ResponseTo, CText, Session, Acceptable;
    log := [];
    var wfd := new FrameData(client);
    var ok;
    ok, n := wfd.DoHandshake();
    ghost var before, now := old(client.outgoing), client.outgoing;
    if !ok {
      return;
    }
    log := wfd.Serve();
    assert client.outgoing[|before|..] == now[|before|..] + client.outgoing[|now|..];
  }

  /** The first idx octets of a buffer that may not exist yet. */
  ghost function Text(buf: array?<byte>, idx: nat): seq<byte>
    requires buf == null ==> idx == 0
    requires buf != null ==> idx <= buf.Length
    reads buf
  {
    if buf == null then [] else buf[..idx]
  }

  /** buf starts with data; if the message is complete and not empty, a NUL follows. */
  ghost predicate Holds(buf: array?<byte>, data: seq<byte>, complete: bool)
    reads buf
  {
    if buf == null then data == [] else
      && |data| <= buf.Length && buf[..|data|] == data
      && (complete && data != [] ==> |data| < buf.Length && buf[|data|] == 0)
  }

  lemma ResponseStands(response: array<byte>, text: seq<byte>)
    requires Handshake.Holds(response, text)
    ensures response[..|text|] == text
  {
  }

  lemma SameFrom(a: seq<byte>, b: seq<byte>, m: nat, from: nat, end: nat)
    requires m <= from <= end <= |a| == |b| && a[m..] == b[m..]
    ensures a[from..end] == b[from..end]
  {
    forall i | from <= i < end ensures a[i] == b[i] {
      assert a[m..][i - m] == b[m..][i - m];
    }
  }

  lemma NothingAcceptable()
    ensures CText([]) == [] && !Acceptable([])
  {
  }

  /** Behind the empty line at p nothing is rewritten if the key was found in front of it. */
  lemma RestStays(text: seq<byte>, p: nat)
    requires FirstAt(text, EMPTY_LINE) == Some(p) && KeyLine(HeadLines(text)).Some?
    ensures |text| - |AfterKeyLine(text)| <= p + 4
  {
    hide KeyLine, AfterKeyLine, KeyIn, FirstAt;
    HeadOfText(text);
    KeyInHead(HeadLines(text), text[p + 3..]);
  }

  lemma HeadParts(head: byte)
    ensures ((head >> 7) != 0 <==> IsFin(head)) && Num(head & 0xF) == Opcode(head)
  {
  }

  lemma RunNothing()
    ensures Utf8.Run(Utf8.ACCEPT, []) == Utf8.ACCEPT
  {
  }

  lemma ParseBodyShort(small: nat, s: seq<byte>)
    requires small <= 125
    ensures ParseBody(small, s).Parsed? ==> |ParseBody(small, s).value.payload| == small
  {
  }

  lemma ServiceParts(v: Service, log: seq<(int, seq<byte>)>, sent: seq<byte>)
    ensures v.After(log, sent).messages == log + v.messages && v.After(log, sent).sent == sent + v.sent
  {
  }

  lemma PrefixTail(base: seq<byte>, a: seq<byte>, b: seq<byte>, c: seq<byte>, out: seq<byte>)
    requires base + (a + b) <= out <= base + (a + b) + c
    ensures base <= out && out[|base|..] <= a + (b + c)
    ensures out == base + (a + b) + c ==> out[|base|..] == a + (b + c)
  {
    assert base + (a + b) + c == base + (a + (b + c));
  }

  lemma SessionStartsWith(s: seq<byte>)
    ensures Receive(s, NONE, [], false).sent <= Session(s).sent
  {
    hide Receive;
  }

  lemma CodeOf(reason: seq<byte>)
    ensures |reason| == 1 ==> BigEndianValue(reason) == Num(reason[0])
    ensures |reason| == 2 ==> BigEndianValue(reason) == 256 * Num(reason[0]) + Num(reason[1])
  {
    if |reason| == 2 {
      assert BigEndianValue(reason[..1]) == 256 * BigEndianValue(reason[..1][..0]) + Num(reason[0]);
    }
  }

  lemma Code1002()
    ensures [Octet(1002, 1), Octet(1002, 0)] == PROTOCOL_ERROR
  {
    assert Octet(1002, 1) == ByteOf(1002 / 256);
  }

  lemma Code1007()
    ensures [Octet(1007, 1), Octet(1007, 0)] == INVALID_UTF8
  {
    assert Octet(1007, 1) == ByteOf(1007 / 256);
  }
}
