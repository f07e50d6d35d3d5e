/** How next_frame() of ws.c assembles messages, as a function of the octet stream, and what RFC 6455 says about it. */
module Messages {
  import opened Bytes
  import opened Frames
  import Utf8

  const NONE := -1

  /** The close code 1007 that refuses text which is not UTF-8. */
  const INVALID_UTF8: seq<byte> := [0x03, 0xEF]

  /** What one call returns: the octets sent to the client meanwhile, and the octets it leaves unread. */
  datatype Outcome =
    | Failed(sent: seq<byte>)
    | Message(kind: int, data: seq<byte>, sent: seq<byte>, rest: seq<byte>)
    | Closed(reason: seq<byte>, sent: seq<byte>, rest: seq<byte>)
  {
    function After(earlier: seq<byte>): Outcome {
      match this
      case Failed(sent) => Failed(earlier + sent)
      case Message(k, d, sent, rest) => Message(k, d, earlier + sent, rest)
      case Closed(r, sent, rest) => Closed(r, earlier + sent, rest)
    }
  }

  lemma AfterNothing(o: Outcome)
    ensures o.After([]) == o
  {
    assert [] + o.sent == o.sent;
  }

  lemma AfterAfter(o: Outcome, a: seq<byte>, b: seq<byte>)
    ensures o.After(b).After(a) == o.After(a + b)
  {
    assert a + (b + o.sent) == a + b + o.sent;
  }

  /** May f come next, when a message of this kind with this much data is under way? */
  predicate Legal(f: Frame, kind: int, size: nat, closing: bool) {
    && !HasRsv(f.head)
    && f.Op() in {CONT, TEXT, BINARY, CLOSE, PING, PONG}
    && (closing ==> f.Op() == CLOSE)
    && if f.Data() then (f.Op() == CONT <==> kind != NONE) && size + |f.payload| <= MAX_LENGTH
       else f.Fin() && f.form == Short
  }

  function KindAfter(f: Frame, kind: int): int {
    if f.Data() && f.Op() != CONT then f.Op() else kind
  }

  /** A close reason of more than two octets carries UTF-8 text after the code. */
  predicate ReasonOk(reason: seq<byte>) {
    |reason| > 2 ==> Utf8.Octets(reason[2..])
  }

  /** Text so far must be UTF-8, whole when the message ends and extendible before that. */
  ghost predicate TextOk(fin: bool, data: seq<byte>) {
    if fin then Utf8.Octets(data) else Utf8.Viable(data)
  }

  /** The stream s, read while the first data of a message are already there. */
  ghost function Receive(s: seq<byte>, kind: int, data: seq<byte>, closing: bool): (o: Outcome)
    ensures !o.Failed? ==> |o.rest| < |s|
    decreases |s|
  {
    match ParseFrame(s)
    case Truncated => Failed([])
    case Parsed(f, rest) =>
      if !Legal(f, kind, |data|, closing) then Failed([])
      else if f.Op() == PING then Receive(rest, kind, data, closing).After(ServerFrame(PONG, f.payload))
      else if f.Op() == PONG then Receive(rest, kind, data, closing)
      else if f.Op() == CLOSE then (if ReasonOk(f.payload) then Closed(f.payload, [], rest) else Failed([]))
      else
        var kind', data' := KindAfter(f, kind), data + f.payload;
        if kind' == TEXT && !TextOk(f.Fin(), data') then Failed(ServerFrame(CLOSE, INVALID_UTF8))
        else if f.Fin() then Message(kind', data', [], rest)
        else Receive(rest, kind', data', closing)
  }

  /** The first octet alone already rules the frame out. */
  predicate HeadRefused(head: byte, kind: int, closing: bool) {
    var op := Opcode(head);
    || HasRsv(head)
    || op !in {CONT, TEXT, BINARY, CLOSE, PING, PONG}
    || (closing && op != CLOSE)
    || (!IsControl(op) && (op == CONT <==> kind == NONE))
  }

  lemma RefusedAtHead(s: seq<byte>, kind: int, data: seq<byte>, closing: bool)
    requires s == [] || HeadRefused(s[0], kind, closing)
    ensures Receive(s, kind, data, closing) == Failed([])
  {
    hide ParseBody;
  }

  lemma RefusedAtLength(s: seq<byte>, kind: int, data: seq<byte>, closing: bool)
    requires |s| < 2 || (IsControl(Opcode(s[0])) && (!IsFin(s[0]) || SmallLengthOf(s[1]) > 125))
    ensures Receive(s, kind, data, closing) == Failed([])
  {
    hide ParseBody;
  }

  /** What becomes of a frame whose two header octets are acceptable. */
  lemma ReceiveByOpcode(s: seq<byte>, kind: int, data: seq<byte>, closing: bool)
    requires |s| >= 2 && !HeadRefused(s[0], kind, closing)
    requires IsControl(Opcode(s[0])) ==> IsFin(s[0]) && SmallLengthOf(s[1]) <= 125
    ensures var op, fin, body, o := Opcode(s[0]), IsFin(s[0]), ParseBody(SmallLengthOf(s[1]), s[2..]),
      Receive(s, kind, data, closing);
      if body.Truncated? then o == Failed([])
      else var payload := body.value.payload;
        if op == PING then o == Receive(body.rest, kind, data, closing).After(ServerFrame(PONG, payload))
        else if op == PONG then o == Receive(body.rest, kind, data, closing)
        else if op == CLOSE then o == if ReasonOk(payload) then Closed(payload, [], body.rest) else Failed([])
        else var kind', data' := if op == CONT then kind else op, data + payload;
          if |data'| > MAX_LENGTH then o == Failed([])
          else if kind' == TEXT && !TextOk(fin, data') then o == Failed(ServerFrame(CLOSE, INVALID_UTF8))
          else if fin then o == Message(kind', data', [], body.rest)
          else o == Receive(body.rest, kind', data', closing)
  {
    hide ParseBody, TextOk, ReasonOk, ServerFrame, HasRsv, IsFin;
  }

  // ---------------------------------------------------------------- frame sequences

  function WireAll(fs: seq<Frame>): seq<byte> {
    if fs == [] then [] else fs[0].Wire() + WireAll(fs[1..])
  }

  /** The payloads of the data frames, joined. */
  function DataOf(fs: seq<Frame>): seq<byte> {
    if fs == [] then [] else
      var n := |fs| - 1;
      DataOf(fs[..n]) + if fs[n].Data() then fs[n].payload else []
  }

  /** The type of the message: the opcode of the first data frame. */
  function KindOf(fs: seq<Frame>): int {
    if fs == [] then NONE else if fs[0].Data() then fs[0].Op() else KindOf(fs[1..])
  }

  /** One PONG for each PING, in order, with the payload of the PING. */
  function PongsFor(fs: seq<Frame>): seq<byte> {
    if fs == [] then [] else
      var n := |fs| - 1;
      PongsFor(fs[..n]) + if fs[n].Op() == PING then ServerFrame(PONG, fs[n].payload) else []
  }

  /** The frame that ends the call: a CLOSE or the last fragment of a message. */
  predicate Ends(f: Frame) {
    f.Op() == CLOSE || (f.Data() && f.Fin())
  }

  /** Sections 5.2, 5.4 and 5.5 for every frame: legal octets, legal place among the frames before it. */
  predicate LegalAt(fs: seq<Frame>, i: nat, closing: bool)
    requires i < |fs|
  {
    fs[i].WellFormed() && Legal(fs[i], KindOf(fs[..i]), |DataOf(fs[..i])|, closing)
  }

  /** The frames of one call: each legal, exactly the last one ending it, and its text UTF-8 (section 8.1). */
  ghost predicate Transcript(fs: seq<Frame>, closing: bool) {
    && fs != []
    && (forall i :: 0 <= i < |fs| ==> LegalAt(fs, i, closing))
    && (forall i :: 0 <= i < |fs| ==> (Ends(fs[i]) <==> i == |fs| - 1))
    && var last := fs[|fs| - 1];
       && (KindOf(fs) == TEXT ==> TextOk(last.Op() != CLOSE, DataOf(fs)))
       && (last.Op() == CLOSE ==> ReasonOk(last.payload))
  }

  function OutcomeOf(fs: seq<Frame>, rest: seq<byte>): Outcome
    requires fs != []
  {
    var last := fs[|fs| - 1];
    if last.Op() == CLOSE then Closed(last.payload, PongsFor(fs), rest)
    else Message(KindOf(fs), DataOf(fs), PongsFor(fs), rest)
  }

  lemma {:induction false} KindOfSnoc(fs: seq<Frame>, f: Frame)
    ensures KindOf(fs + [f]) == if KindOf(fs) != NONE || !f.Data() then KindOf(fs) else f.Op()
  {
    if fs != [] {
      assert (fs + [f])[1..] == fs[1..] + [f];
      KindOfSnoc(fs[1..], f);
    }
  }

  lemma {:induction false} PrefixGrows(fs: seq<Frame>, i: nat)
    requires i <= |fs|
    ensures DataOf(fs[..i]) <= DataOf(fs)
    ensures KindOf(fs[..i]) != NONE ==> KindOf(fs) == KindOf(fs[..i])
    decreases |fs|
  {
    var n := |fs| - 1;
    if i <= n {
      PrefixGrows(fs[..n], i);
      assert fs[..n][..i] == fs[..i] && fs == fs[..n] + [fs[n]];
      KindOfSnoc(fs[..n], fs[n]);
    } else {
      assert fs[..i] == fs;
    }
  }

  lemma ViablePrefix(a: seq<byte>, s: seq<byte>)
    requires a <= s && Utf8.Viable(s)
    ensures Utf8.Viable(a)
  {
    var t :| Utf8.Octets(s + t);
    assert s + t == a + (s[|a|..] + t);
  }

  lemma OctetsViable(s: seq<byte>)
    requires Utf8.Octets(s)
    ensures Utf8.Viable(s)
  {
    assert s + [] == s;
  }

  /** Text that is acceptable at the end of the call was acceptable after each of its fragments. */
  lemma TextOkBefore(fs: seq<Frame>, i: nat, closing: bool)
    requires Transcript(fs, closing) && i < |fs| && KindOf(fs[..i]) == TEXT
    ensures TextOk(false, DataOf(fs[..i]))
  {
    PrefixGrows(fs, i);
    if fs[|fs| - 1].Op() != CLOSE {
      OctetsViable(DataOf(fs));
    }
    ViablePrefix(DataOf(fs[..i]), DataOf(fs));
  }

  /** A legal frame that does not end the call takes the assembly from one prefix of the frames to the next. */
  lemma PassOver(before: seq<Frame>, f: Frame, tail: seq<byte>, closing: bool)
    requires f.WellFormed() && Legal(f, KindOf(before), |DataOf(before)|, closing) && !Ends(f)
    ensures var upto := before + [f];
      Receive(f.Wire() + tail, KindOf(before), DataOf(before), closing) ==
      if f.Data() && KindOf(upto) == TEXT && !TextOk(false, DataOf(upto)) then Failed(ServerFrame(CLOSE, INVALID_UTF8))
      else Receive(tail, KindOf(upto), DataOf(upto), closing).After(PongsFor([f]))
  {
    hide ParseFrame, ServerFrame, TextOk;
    var upto := before + [f];
    ParseWire(f, tail);
    Snoc(before, f);
    assert PongsFor([f]) == if f.Op() == PING then ServerFrame(PONG, f.payload) else [] by {
      assert PongsFor([f][..0]) == [];
    }
    AfterNothing(Receive(tail, KindOf(upto), DataOf(upto), closing));
    if f.Op() == PING {
    } else if f.Op() == PONG {
    } else {
      assert KindAfter(f, KindOf(before)) == KindOf(upto);
    }
  }

  lemma Snoc(before: seq<Frame>, f: Frame)
    ensures KindOf(before + [f]) == if KindOf(before) != NONE || !f.Data() then KindOf(before) else f.Op()
    ensures DataOf(before + [f]) == if f.Data() then DataOf(before) + f.payload else DataOf(before)
    ensures PongsFor(before + [f]) == PongsFor(before) + PongsFor([f])
  {
    KindOfSnoc(before, f);
    assert (before + [f])[..|before|] == before;
    assert PongsFor([f][..0]) == [];
  }

  /** The frame that ends the call. */
  lemma LastFrame(f: Frame, kind: int, data: seq<byte>, rest: seq<byte>, closing: bool)
    requires f.WellFormed() && Legal(f, kind, |data|, closing) && Ends(f)
    requires f.Op() == CLOSE ==> ReasonOk(f.payload)
    requires f.Op() != CLOSE && KindAfter(f, kind) == TEXT ==> TextOk(true, data + f.payload)
    ensures Receive(f.Wire() + rest, kind, data, closing) ==
      if f.Op() == CLOSE then Closed(f.payload, [], rest) else Message(KindAfter(f, kind), data + f.payload, [], rest)
  {
    hide ParseFrame, ServerFrame, TextOk, ReasonOk;
    ParseWire(f, rest);
  }

  lemma Finish(fs: seq<Frame>, rest: seq<byte>, closing: bool)
    requires Transcript(fs, closing)
    ensures var n := |fs| - 1;
      Receive(fs[n].Wire() + rest, KindOf(fs[..n]), DataOf(fs[..n]), closing).After(PongsFor(fs[..n]))
        == OutcomeOf(fs, rest)
  {
    hide Receive, ServerFrame, TextOk, ReasonOk, KindOf, DataOf, PongsFor;
    var n := |fs| - 1;
    var before, f := fs[..n], fs[n];
    assert LegalAt(fs, n, closing);
    assert fs == before + [f];
    Snoc(before, f);
    NoPong(f);
    LastFrame(f, KindOf(before), DataOf(before), rest, closing);
    assert PongsFor(before) + [] == PongsFor(before);
  }

  lemma NoPong(f: Frame)
    requires f.Op() != PING
    ensures PongsFor([f]) == []
  {
    assert PongsFor([f][..0]) == [];
  }

  lemma {:induction false} ReassemblyFrom(fs: seq<Frame>, i: nat, rest: seq<byte>, closing: bool)
    requires Transcript(fs, closing) && i < |fs|
    ensures Receive(WireAll(fs[i..]) + rest, KindOf(fs[..i]), DataOf(fs[..i]), closing).After(PongsFor(fs[..i]))
         == OutcomeOf(fs, rest)
    decreases |fs| - i
  {
    hide *;
    var f, tail := fs[i], WireAll(fs[i + 1..]) + rest;
    TranscriptAt(fs, i, closing);
    assert fs[i..] == [f] + fs[i + 1..];
    WireAllCons(f, fs[i + 1..]);
    assert WireAll(fs[i..]) + rest == f.Wire() + tail;
    assert fs[..i] + [f] == fs[..i + 1];
    if i + 1 == |fs| {
      WireAllNone();
      assert tail == rest;
      Finish(fs, rest, closing);
    } else {
      ReassemblyFrom(fs, i + 1, rest, closing);
      PassOver(fs[..i], f, tail, closing);
      if KindOf(fs[..i + 1]) == TEXT {
        TextOkBefore(fs, i + 1, closing);
      }
      AfterAfter(Receive(tail, KindOf(fs[..i + 1]), DataOf(fs[..i + 1]), closing), PongsFor(fs[..i]), PongsFor([f]));
      Snoc(fs[..i], f);
    }
  }

  lemma TranscriptAt(fs: seq<Frame>, i: nat, closing: bool)
    requires Transcript(fs, closing) && i < |fs|
    ensures fs[i].WellFormed() && Legal(fs[i], KindOf(fs[..i]), |DataOf(fs[..i])|, closing)
    ensures i + 1 < |fs| ==> !Ends(fs[i])
  {
    assert LegalAt(fs, i, closing);
  }

  /** However a message is cut into frames, masked, and mixed with pings and pongs, its whole payload comes out. */
  lemma Reassembly(fs: seq<Frame>, rest: seq<byte>, closing: bool)
    requires Transcript(fs, closing)
    ensures Receive(WireAll(fs) + rest, NONE, [], closing) == OutcomeOf(fs, rest)
  {
    ReassemblyFrom(fs, 0, rest, closing);
    assert fs[0..] == fs;
    AfterNothing(Receive(WireAll(fs) + rest, NONE, [], closing));
  }

  /** The frames read so far by a call that has not come to its end. */
  ghost predicate InProgress(fs: seq<Frame>, closing: bool) {
    && (forall i :: 0 <= i < |fs| ==> LegalAt(fs, i, closing))
    && (forall i :: 0 <= i < |fs| ==> !Ends(fs[i]))
    && (KindOf(fs) == TEXT ==> TextOk(false, DataOf(fs)))
  }

  lemma LegalAtSnoc(fs: seq<Frame>, f: Frame, closing: bool)
    requires forall i :: 0 <= i < |fs| ==> LegalAt(fs, i, closing)
    requires f.WellFormed() && Legal(f, KindOf(fs), |DataOf(fs)|, closing)
    ensures forall i :: 0 <= i <= |fs| ==> LegalAt(fs + [f], i, closing)
  {
    forall i | 0 <= i <= |fs| ensures LegalAt(fs + [f], i, closing) {
      assert (fs + [f])[..i] == fs[..i];
      if i < |fs| {
        assert LegalAt(fs, i, closing);
      } else {
        assert fs[..i] == fs;
      }
    }
  }

  lemma FirstFrame(s: seq<byte>, kind: int, data: seq<byte>, closing: bool) returns (f: Frame, rest: seq<byte>)
    requires !Receive(s, kind, data, closing).Failed?
    ensures f.WellFormed() && Legal(f, kind, |data|, closing) && s == f.Wire() + rest && |rest| < |s|
  {
    f, rest := ParseFrame(s).value, ParseFrame(s).rest;
    WireOfParse(s);
  }

  /** A stream that a call accepts starts with a transcript. */
  lemma {:induction false} Explain(s: seq<byte>, before: seq<Frame>, closing: bool)
    returns (fs: seq<Frame>, rest: seq<byte>)
    requires InProgress(before, closing)
    requires !Receive(s, KindOf(before), DataOf(before), closing).Failed?
    ensures Transcript(before + fs, closing) && s == WireAll(fs) + rest
    decreases |s|
  {
    hide *;
    var f;
    f, rest := FirstFrame(s, KindOf(before), DataOf(before), closing);
    if Ends(f) {
      fs := [f];
      EndsTranscript(before, f, rest, closing);
      WireAllCons(f, []);
      assert f.Wire() + [] == f.Wire() && [f] + [] == [f];
      WireAllNone();
    } else {
      StaysInProgress(before, f, rest, closing);
      var tail, last := Explain(rest, before + [f], closing);
      fs, rest := [f] + tail, last;
      assert before + fs == before + [f] + tail;
      WireAllCons(f, tail);
      assert f.Wire() + (WireAll(tail) + rest) == f.Wire() + WireAll(tail) + rest;
    }
  }

  lemma WireAllCons(f: Frame, fs: seq<Frame>)
    ensures WireAll([f] + fs) == f.Wire() + WireAll(fs)
  {
    assert ([f] + fs)[1..] == fs;
  }

  lemma WireAllNone()
    ensures WireAll([]) == []
  {
  }

  lemma StaysInProgress(before: seq<Frame>, f: Frame, rest: seq<byte>, closing: bool)
    requires InProgress(before, closing) && f.WellFormed() && Legal(f, KindOf(before), |DataOf(before)|, closing)
      && !Ends(f)
    requires !Receive(f.Wire() + rest, KindOf(before), DataOf(before), closing).Failed?
    ensures var upto := before + [f];
      InProgress(upto, closing) && !Receive(rest, KindOf(upto), DataOf(upto), closing).Failed?
  {
    hide ServerFrame, TextOk, DataOf, KindOf, Receive, ParseFrame, Legal;
    LegalAtSnoc(before, f, closing);
    PassOver(before, f, rest, closing);
    if !f.Data() {
      StillText(before, f);
    }
  }

  lemma StillText(before: seq<Frame>, f: Frame)
    requires !f.Data()
    ensures KindOf(before + [f]) == KindOf(before) && DataOf(before + [f]) == DataOf(before)
  {
    KindOfSnoc(before, f);
    assert (before + [f])[..|before|] == before;
    assert DataOf(before) + [] == DataOf(before);
  }

  lemma EndsTranscript(before: seq<Frame>, f: Frame, rest: seq<byte>, closing: bool)
    requires InProgress(before, closing) && f.WellFormed() && Ends(f)
    requires !Receive(f.Wire() + rest, KindOf(before), DataOf(before), closing).Failed?
    ensures Transcript(before + [f], closing)
  {
    hide ServerFrame, TextOk, ReasonOk, ParseFrame;
    ParseWire(f, rest);
    LegalAtSnoc(before, f, closing);
    KindOfSnoc(before, f);
    var upto := before + [f];
    assert upto[..|before|] == before;
    if !f.Data() {
      StillText(before, f);
    }
  }

  /** A call succeeds exactly on the streams that start with a transcript; its frames then fix the outcome. */
  lemma ExactAcceptance(s: seq<byte>, closing: bool)
    ensures !Receive(s, NONE, [], closing).Failed?
       <==> exists fs, rest :: Transcript(fs, closing) && s == WireAll(fs) + rest
  {
    if !Receive(s, NONE, [], closing).Failed? {
      var fs, rest := Explain(s, [], closing);
      assert [] + fs == fs;
    }
    if exists fs, rest :: Transcript(fs, closing) && s == WireAll(fs) + rest {
      var fs, rest :| Transcript(fs, closing) && s == WireAll(fs) + rest;
      Reassembly(fs, rest, closing);
    }
  }

  // ---------------------------------------------------------------- whole connections

  /** The close code 1002, sent back for a close code that is not valid. */
  const PROTOCOL_ERROR: seq<byte> := [0x03, 0xEA]

  predicate CloseCodeOk(code: int) {
    1000 <= code <= 1003 || 1007 <= code <= 1011 || 3000 <= code <= 4999
  }

  /** do_close() without a code of its own: the reason is sent back, unless it is no more than an invalid code. */
  function CloseReply(reason: seq<byte>): seq<byte> {
    if |reason| == 0 || |reason| > 2 || CloseCodeOk(BigEndianValue(reason)) then ServerFrame(CLOSE, reason)
    else ServerFrame(CLOSE, PROTOCOL_ERROR)
  }

  /** The messages an open connection hands to onmessage, and every octet it sends, until it ends. */
  datatype Service = Service(messages: seq<(int, seq<byte>)>, sent: seq<byte>) {
    function After(log: seq<(int, seq<byte>)>, earlier: seq<byte>): Service {
      Service(log + messages, earlier + sent)
    }
  }

  lemma ServiceAfterAfter(v: Service, log: seq<(int, seq<byte>)>, a: seq<byte>, more: seq<(int, seq<byte>)>,
    b: seq<byte>)
    ensures v.After(more, b).After(log, a) == v.After(log + more, a + b)
  {
    assert log + (more + v.messages) == log + more + v.messages && a + (b + v.sent) == a + b + v.sent;
  }

  lemma ServiceAfterNothing(v: Service)
    ensures v.After([], []) == v
  {
    assert [] + v.messages == v.messages && [] + v.sent == v.sent;
  }

  ghost function Session(s: seq<byte>): Service
    decreases |s|
  {
    match Receive(s, NONE, [], false)
    case Failed(sent) => Service([], sent)
    case Closed(reason, sent, rest) => Service([], sent + CloseReply(reason))
    case Message(kind, data, sent, rest) =>
      Session(rest).After([(kind, data)], sent)
  }

  /** The frames of several complete messages, one transcript for each. */
  ghost predicate MessageTranscripts(calls: seq<seq<Frame>>) {
    forall c: seq<Frame> :: c in calls ==> Transcript(c, false) && c[|c| - 1].Op() != CLOSE
  }

  function WireOfCalls(calls: seq<seq<Frame>>): seq<byte> {
    if calls == [] then [] else WireAll(calls[0]) + WireOfCalls(calls[1..])
  }

  function PongsOfCalls(calls: seq<seq<Frame>>): seq<byte> {
    if calls == [] then [] else PongsFor(calls[0]) + PongsOfCalls(calls[1..])
  }

  function MessagesOfCalls(calls: seq<seq<Frame>>): seq<(int, seq<byte>)> {
    if calls == [] then [] else [(KindOf(calls[0]), DataOf(calls[0]))] + MessagesOfCalls(calls[1..])
  }

  /** Every message of a well-behaved client is delivered, once, whole and in order, and every ping is answered. */
  lemma {:induction false} SessionDelivers(calls: seq<seq<Frame>>, rest: seq<byte>)
    requires MessageTranscripts(calls)
    ensures Session(WireOfCalls(calls) + rest) == Session(rest).After(MessagesOfCalls(calls), PongsOfCalls(calls))
    decreases |calls|
  {
    hide Receive, WireAll, Transcript, DataOf, KindOf, PongsFor, Service.After;
    if calls == [] {
      assert WireOfCalls(calls) + rest == rest;
      ServiceAfterNothing(Session(rest));
    } else {
      var c, others := calls[0], calls[1..];
      var s := WireOfCalls(others) + rest;
      SessionDelivers(others, rest);
      TranscriptNotEmpty(c);
      Reassembly(c, s, false);
      assert WireOfCalls(calls) + rest == WireAll(c) + s;
      ServiceAfterAfter(Session(rest), [(KindOf(c), DataOf(c))], PongsFor(c), MessagesOfCalls(others),
        PongsOfCalls(others));
    }
  }

  lemma TranscriptNotEmpty(fs: seq<Frame>)
    requires Transcript(fs, false)
    ensures fs != []
  {
  }

  /** A delivered message is text or binary, and a close reason fits the control buffer. */
  lemma {:induction false} OutcomeShape(s: seq<byte>, kind: int, data: seq<byte>, closing: bool)
    requires kind in {NONE, TEXT, BINARY}
    ensures var o := Receive(s, kind, data, closing);
      && (o.Message? ==> o.kind in {TEXT, BINARY} && |o.data| <= MAX_LENGTH)
      && (o.Closed? ==> |o.reason| <= 125)
    decreases |s|
  {
    hide ServerFrame, TextOk, ReasonOk, ParseFrame;
    if ParseFrame(s).Parsed? {
      var f, rest := ParseFrame(s).value, ParseFrame(s).rest;
      if Legal(f, kind, |data|, closing) {
        LegalShape(s, kind, |data|, closing);
        OutcomeShape(rest, kind, data, closing);
        if f.Data() {
          OutcomeShape(rest, KindAfter(f, kind), data + f.payload, closing);
        }
      }
    }
  }

  lemma LegalShape(s: seq<byte>, kind: int, size: nat, closing: bool)
    requires ParseFrame(s).Parsed? && Legal(ParseFrame(s).value, kind, size, closing) && kind in {NONE, TEXT, BINARY}
    ensures var f := ParseFrame(s).value;
      && (f.Data() ==> KindAfter(f, kind) in {TEXT, BINARY} && size + |f.payload| <= MAX_LENGTH)
      && (!f.Data() ==> |f.payload| <= 125)
  {
    WireOfParse(s);
    hide ParseFrame;
  }
}
