/** The clock of gpu.c: four modes, 456 ticks a line, 154 lines a frame. */
module GpuTiming {
  datatype Mode = HBlank | VBlank | OamScanline | VramScanline

  const OAM_SCAN_CYCLE := 80
  const VRAM_SCAN_CYCLE := 172
  const HBLANK_CYCLE := 204
  const VBLANK_CYCLE := 456

  const MAX_LINES := 153
  const MAX_Y := 144

  const LINE := 456
  const FRAME := 70224

  /** UINT_MAX + 1 */
  const CLOCK_LIMIT := 0x1_0000_0000

  /** The longest tick for which one change of mode a step is enough. */
  const LONGEST_TICK := 80

  /** Where gpuReset() leaves the clock: in line 153. */
  const RESET_POSITION := 69884

  // ---------------------------------------------------------------- the machine

  datatype Timing = Timing(on: bool, mode: Mode, clock: nat, line: nat)

  datatype Event = Paint(line: nat) | EnterVBlank

  datatype Progress = Progress(next: Timing, events: seq<Event>)

  function Length(mode: Mode): nat {
    match mode
    case HBlank => HBLANK_CYCLE
    case VBlank => VBLANK_CYCLE
    case OamScanline => OAM_SCAN_CYCLE
    case VramScanline => VRAM_SCAN_CYCLE
  }

  function NextLine(line: nat): nat {
    if line == MAX_LINES then 0 else (line + 1) % 256
  }

  /** gpuStep() */
  function Advance(t: Timing, tick: int): Progress {
    var clock := (t.clock + tick) % CLOCK_LIMIT;
    if !t.on then Progress(t, [])
    else if clock < Length(t.mode) then Progress(t.(clock := clock), [])
    else
      var line, left := NextLine(t.line), clock - Length(t.mode);
      match t.mode
      case HBlank =>
        if line == MAX_Y then Progress(Timing(true, VBlank, left, line), [EnterVBlank])
        else Progress(Timing(true, OamScanline, left, line), [])
      case VBlank => Progress(Timing(true, if line == 0 then OamScanline else VBlank, left, line), [])
      case OamScanline => Progress(Timing(true, VramScanline, left, t.line), [])
      case VramScanline => Progress(Timing(true, HBlank, left, t.line), [Paint(t.line)])
  }

  /** What a program can do to the clock: let time pass, write 0xFF40, write 0xFF44. */
  datatype Action = Tick(ticks: int) | SwitchDisplay(on: bool) | ResetLine

  function Act(t: Timing, a: Action): Progress {
    match a
    case Tick(n) => Advance(t, n)
    case SwitchDisplay(on) => Progress(if on then t.(on := true) else Timing(false, HBlank, 0, 0), [])
    case ResetLine => Progress(t.(line := 0), [])
  }

  function Run(t: Timing, actions: seq<Action>): Progress
    decreases |actions|
  {
    if actions == [] then Progress(t, [])
    else
      var first := Act(t, actions[0]);
      var rest := Run(first.next, actions[1..]);
      Progress(rest.next, first.events + rest.events)
  }

  lemma {:induction false} RunConcat(t: Timing, first: seq<Action>, more: seq<Action>)
    ensures var p := Run(t, first);
      var q := Run(p.next, more);
      Run(t, first + more) == Progress(q.next, p.events + q.events)
    decreases |first|
  {
    hide Act;
    if first == [] {
      assert first + more == more && [] + Run(t, more).events == Run(t, more).events;
    } else {
      assert (first + more)[1..] == first[1..] + more;
      RunConcat(Act(t, first[0]).next, first[1..], more);
    }
  }

  const RESET := Timing(false, VBlank, 116, MAX_LINES)

  // ---------------------------------------------------------------- the line counter stays in bounds

  /** Outside of VBLANK the line is on the screen. */
  predicate InBounds(t: Timing) {
    t.line <= MAX_LINES && (t.mode != VBlank ==> t.line < MAX_Y)
  }

  /** Whatever a program does, no line is painted that is not on the screen. */
  lemma {:induction false} PaintsInBounds(t: Timing, actions: seq<Action>)
    requires InBounds(t)
    ensures InBounds(Run(t, actions).next)
    ensures forall i :: 0 <= i < |Run(t, actions).events| ==>
      var e := Run(t, actions).events[i];
      e.Paint? ==> e.line < MAX_Y
    decreases |actions|
  {
    if actions != [] {
      PaintsInBounds(Act(t, actions[0]).next, actions[1..]);
    }
  }

  // ---------------------------------------------------------------- conservation

  function Offset(mode: Mode): nat {
    match mode
    case HBlank => OAM_SCAN_CYCLE + VRAM_SCAN_CYCLE
    case VBlank => 0
    case OamScanline => 0
    case VramScanline => OAM_SCAN_CYCLE
  }

  /** How far the frame has come. */
  function Position(t: Timing): nat {
    t.line * LINE + Offset(t.mode) + t.clock
  }

  /** The mode and the line agree. */
  predicate OnTrack(t: Timing) {
    t.on && t.line <= MAX_LINES && (t.mode == VBlank <==> t.line >= MAX_Y)
  }

  predicate Running(t: Timing) {
    OnTrack(t) && t.clock < Length(t.mode)
  }

  /** Every tick counts once, however long the step, as long as the clock does not overflow. */
  lemma Conservation(t: Timing, tick: nat)
    requires OnTrack(t) && t.clock + tick < CLOCK_LIMIT
    ensures var next := Advance(t, tick).next;
      OnTrack(next) && Position(next) % FRAME == (Position(t) + tick) % FRAME
  {
    var next := Advance(t, tick).next;
    if Position(next) != Position(t) + tick {
      assert Position(next) + FRAME == Position(t) + tick;
      AddFrame(Position(next));
    }
  }

  lemma AddFrame(p: nat)
    ensures (p + FRAME) % FRAME == p % FRAME
  {
  }

  /** The clock stays below the length of the mode in all cases exactly for ticks of at most 80. */
  lemma TickBound(tick: nat)
    requires tick < CLOCK_LIMIT - LINE
    ensures tick <= LONGEST_TICK <==> forall t :: Running(t) ==> Running(Advance(t, tick).next)
  {
    if tick > LONGEST_TICK {
      var t := Timing(true, VBlank, LINE - 1, MAX_LINES);
      assert Running(t) && !Running(Advance(t, tick).next);
    }
  }

  // ---------------------------------------------------------------- closed form

  /** Line l and tick r of frame k. */
  function Moment(k: nat, l: nat, r: nat): nat {
    FRAME * k + LINE * l + r
  }

  /** The state of the clock at a moment, counted from the start of some frame. */
  function At(moment: nat): Timing {
    AtPlace(moment % FRAME)
  }

  function AtPlace(p: nat): Timing {
    var l, r := p / LINE, p % LINE;
    if l >= MAX_Y then Timing(true, VBlank, r, l)
    else if r < OAM_SCAN_CYCLE then Timing(true, OamScanline, r, l)
    else if r < OAM_SCAN_CYCLE + VRAM_SCAN_CYCLE then Timing(true, VramScanline, r - OAM_SCAN_CYCLE, l)
    else Timing(true, HBlank, r - OAM_SCAN_CYCLE - VRAM_SCAN_CYCLE, l)
  }

  lemma Places(k: nat, l: nat, r: nat)
    requires l <= MAX_LINES && r < LINE
    ensures var p := Moment(k, l, r) % FRAME;
      p == LINE * l + r && p / LINE == l && p % LINE == r
  {
    assert Moment(k, l, r) == FRAME * k + (LINE * l + r) && LINE * l + r < FRAME;
  }

  lemma PlacesOf(moment: nat) returns (k: nat, l: nat, r: nat)
    ensures l <= MAX_LINES && r < LINE && moment == Moment(k, l, r)
  {
    k := moment / FRAME;
    l, r := moment % FRAME / LINE, moment % FRAME % LINE;
  }

  lemma AtIsRunning(moment: nat)
    ensures Running(At(moment)) && Position(At(moment)) == moment % FRAME
  {
    var k, l, r := PlacesOf(moment);
    Places(k, l, r);
  }

  lemma RunningIsAt(t: Timing)
    requires Running(t)
    ensures Position(t) < FRAME && At(Position(t)) == t
  {
    var r := Offset(t.mode) + t.clock;
    Places(0, t.line, r);
  }

  /** One step moves the closed form on by its ticks. */
  lemma StepIsAt(moment: nat, tick: nat)
    requires tick <= LONGEST_TICK
    ensures Advance(At(moment), tick).next == At(moment + tick)
  {
    hide At, AtPlace, Advance, Running;
    var t := At(moment);
    var next := Advance(t, tick).next;
    AtIsRunning(moment);
    RunningFacts(t, tick);
    Conservation(t, tick);
    RunningIsAt(next);
    SameFrame(moment, tick, Position(next));
    AtModulo(moment + tick);
  }

  lemma RunningFacts(t: Timing, tick: nat)
    requires Running(t) && tick <= LONGEST_TICK
    ensures OnTrack(t) && t.clock + tick < CLOCK_LIMIT && Running(Advance(t, tick).next)
  {
  }

  lemma SameFrame(moment: nat, tick: nat, p: nat)
    requires p < FRAME && p % FRAME == (moment % FRAME + tick) % FRAME
    ensures p == (moment + tick) % FRAME
  {
    assert moment + tick == moment / FRAME * FRAME + (moment % FRAME + tick);
  }

  lemma AtModulo(moment: nat)
    ensures At(moment) == At(moment % FRAME)
  {
    hide AtPlace;
    assert moment % FRAME % FRAME == moment % FRAME;
  }

  // ---------------------------------------------------------------- events

  /** What happens at a moment. */
  function EventAt(moment: nat): seq<Event> {
    var p := moment % FRAME;
    var l, r := p / LINE, p % LINE;
    if l < MAX_Y && r == OAM_SCAN_CYCLE + VRAM_SCAN_CYCLE then [Paint(l)]
    else if l == MAX_Y && r == 0 then [EnterVBlank]
    else []
  }

  /** What happens behind one moment and up to another. */
  function Log(from: nat, until: nat): seq<Event>
    requires from <= until
  {
    if from == until then [] else Log(from, until - 1) + EventAt(until)
  }

  lemma {:induction false} LogConcat(a: nat, b: nat, c: nat)
    requires a <= b <= c
    ensures Log(a, c) == Log(a, b) + Log(b, c)
    decreases c - b
  {
    if b < c {
      hide EventAt;
      LogConcat(a, b, c - 1);
    }
  }

  /** Inside a line there is nothing but the paint at tick 252. */
  lemma {:induction false} LogWithin(k: nat, l: nat, r: nat, d: nat)
    requires l <= MAX_LINES && r + d < LINE
    ensures var p := Moment(k, l, r);
      Log(p, p + d) == if l < MAX_Y && r < 252 <= r + d then [Paint(l)] else []
    decreases d
  {
    if d > 0 {
      hide Moment;
      LogWithin(k, l, r, d - 1);
      EventInLine(k, l, r, d);
    }
  }

  lemma EventInLine(k: nat, l: nat, r: nat, d: nat)
    requires l <= MAX_LINES && d > 0 && r + d < LINE
    ensures EventAt(Moment(k, l, r) + d) == if l < MAX_Y && r + d == 252 then [Paint(l)] else []
  {
    Places(k, l, r + d);
    assert Moment(k, l, r) + d == Moment(k, l, r + d);
  }

  /** From inside a line into the next. */
  lemma LogAcross(k: nat, l: nat, r: nat, d: nat)
    requires l <= MAX_LINES && r < LINE && d < 252
    ensures var p := Moment(k, l, r);
      Log(p, p + (LINE - r) + d)
        == (if l < MAX_Y && r < 252 then [Paint(l)] else []) + (if l + 1 == MAX_Y then [EnterVBlank] else [])
  {
    hide Log, EventAt, Moment;
    var p, e := Moment(k, l, r), LINE - 1 - r;
    LogWithin(k, l, r, e);
    LogConcat(p, p + e, p + e + 1);
    LogConcat(p, p + e + 1, p + e + 1 + d);
    LineStart(k, l, r);
    var k', l' := if l == MAX_LINES then k + 1 else k, if l == MAX_LINES then 0 else l + 1;
    LogWithin(k', l', 0, d);
    OneMoment(p + e);
  }

  lemma OneMoment(p: nat)
    ensures Log(p, p + 1) == EventAt(p + 1)
  {
    hide EventAt;
    assert Log(p, p) == [];
  }

  lemma LineStart(k: nat, l: nat, r: nat)
    requires l <= MAX_LINES && r < LINE
    ensures var k', l' := if l == MAX_LINES then k + 1 else k, if l == MAX_LINES then 0 else l + 1;
      && Moment(k, l, r) + (LINE - r) == Moment(k', l', 0)
      && EventAt(Moment(k', l', 0)) == if l' == MAX_Y then [EnterVBlank] else []
  {
    var k', l' := if l == MAX_LINES then k + 1 else k, if l == MAX_LINES then 0 else l + 1;
    Places(k', l', 0);
  }

  /** One step logs what the time between logs. */
  lemma StepLogs(moment: nat, tick: nat)
    requires tick <= LONGEST_TICK
    ensures Advance(At(moment), tick).events == Log(moment, moment + tick)
  {
    hide Log;
    var k, l, r := PlacesOf(moment);
    Places(k, l, r);
    if r + tick < LINE {
      LogWithin(k, l, r, tick);
    } else {
      LogAcross(k, l, r, r + tick - LINE);
    }
  }

  // ---------------------------------------------------------------- runs

  /** A display that stays on, ticks of at most 80, and no write to 0xFF44. */
  predicate Steady(a: Action) {
    match a
    case Tick(n) => 0 <= n <= LONGEST_TICK
    case SwitchDisplay(on) => on
    case ResetLine => false
  }

  function TicksOf(a: Action): nat
    requires Steady(a)
  {
    if a.Tick? then a.ticks else 0
  }

  function Ticks(actions: seq<Action>): nat
    requires forall i :: 0 <= i < |actions| ==> Steady(actions[i])
  {
    if actions == [] then 0 else TicksOf(actions[0]) + Ticks(actions[1..])
  }

  /** However a run is cut into steps, its state and its events depend on nothing but the ticks in all. */
  lemma {:induction false} RunIsAt(moment: nat, actions: seq<Action>)
    requires forall i :: 0 <= i < |actions| ==> Steady(actions[i])
    ensures var end := moment + Ticks(actions);
      Run(At(moment), actions) == Progress(At(end), Log(moment, end))
    decreases |actions|
  {
    hide At, AtPlace, Advance, Log;
    if actions == [] {
      NoTime(moment);
    } else {
      var a, n := actions[0], TicksOf(actions[0]);
      var rest := actions[1..];
      AtIsRunning(moment);
      if a.Tick? {
        StepIsAt(moment, n);
        StepLogs(moment, n);
      } else {
        NoTime(moment);
      }
      RunIsAt(moment + n, rest);
      LogConcat(moment, moment + n, moment + n + Ticks(rest));
    }
  }

  lemma NoTime(moment: nat)
    ensures Log(moment, moment) == []
  {
  }

  /** From gpuReset(), with the display switched on and left on. */
  lemma RunFromReset(actions: seq<Action>)
    requires forall i :: 0 <= i < |actions| ==> Steady(actions[i])
    ensures var end := RESET_POSITION + Ticks(actions);
      Run(RESET, [SwitchDisplay(true)] + actions) == Progress(At(end), Log(RESET_POSITION, end))
  {
    hide Run, At, AtPlace, Advance, Log;
    RunConcat(RESET, [SwitchDisplay(true)], actions);
    SwitchedOn();
    RunIsAt(RESET_POSITION, actions);
    var log := Log(RESET_POSITION, RESET_POSITION + Ticks(actions));
    assert [] + log == log;
  }

  lemma SwitchedOn()
    ensures Run(RESET, [SwitchDisplay(true)]) == Progress(At(RESET_POSITION), [])
  {
    hide At;
    assert [SwitchDisplay(true)][1..] == [];
    RunningIsAt(RESET.(on := true));
  }

  // ---------------------------------------------------------------- frames

  /** The lines before until, each painted once, in order. */
  function Paints(from: nat, until: nat): seq<Event>
    requires from <= until
  {
    seq(until - from, i requires 0 <= i < until - from => Paint(from + i))
  }

  lemma {:induction false} LinesLog(k: nat, from: nat, until: nat)
    requires from <= until <= MAX_Y
    ensures Log(Moment(k, from, 0), Moment(k, until, 0)) ==
      Paints(from, until) + if from < until == MAX_Y then [EnterVBlank] else []
    decreases until
  {
    hide Log;
    if from == until {
      NoTime(Moment(k, from, 0));
    } else {
      LinesLog(k, from, until - 1);
      LineLog(k, until - 1);
      LineStart(k, until - 1, 0);
      LogConcat(Moment(k, from, 0), Moment(k, until - 1, 0), Moment(k, until, 0));
      assert Paints(from, until) == Paints(from, until - 1) + [Paint(until - 1)];
    }
  }

  lemma LineLog(k: nat, l: nat)
    requires l <= MAX_LINES
    ensures Log(Moment(k, l, 0), Moment(k, l, 0) + LINE) ==
      (if l < MAX_Y then [Paint(l)] else []) + if l + 1 == MAX_Y then [EnterVBlank] else []
  {
    LogAcross(k, l, 0, 0);
  }

  /** The lines behind the screen log nothing. */
  lemma {:induction false} BlankLog(k: nat, until: nat)
    requires MAX_Y <= until <= MAX_LINES + 1
    ensures Log(Moment(k, MAX_Y, 0), Moment(k, until, 0)) == []
    decreases until
  {
    if until > MAX_Y {
      hide Log;
      BlankLog(k, until - 1);
      LineLog(k, until - 1);
      LogConcat(Moment(k, MAX_Y, 0), Moment(k, until - 1, 0), Moment(k, until, 0));
    } else {
      NoTime(Moment(k, until, 0));
    }
  }

  /** From one entry of VBLANK up to the next, lines 0 to 143 are painted in order, once each. */
  lemma FrameLog(k: nat)
    ensures Log(Moment(k, MAX_Y, 0), Moment(k + 1, MAX_Y, 0)) == Paints(0, MAX_Y) + [EnterVBlank]
  {
    hide Log;
    BlankLog(k, MAX_LINES + 1);
    assert Moment(k, MAX_LINES + 1, 0) == Moment(k + 1, 0, 0);
    LinesLog(k + 1, 0, MAX_Y);
    LogConcat(Moment(k, MAX_Y, 0), Moment(k + 1, 0, 0), Moment(k + 1, MAX_Y, 0));
  }

  function Frames(n: nat): seq<Event> {
    if n == 0 then [] else Frames(n - 1) + (Paints(0, MAX_Y) + [EnterVBlank])
  }

  lemma {:induction false} FramesFromReset(n: nat)
    requires n > 0
    ensures RESET_POSITION <= Moment(n, MAX_Y, 0) && Log(RESET_POSITION, Moment(n, MAX_Y, 0)) == Frames(n)
  {
    hide Log, Paints;
    if n == 1 {
      LogAcross(0, MAX_LINES, 116, 0);
      LinesLog(1, 0, MAX_Y);
      LogConcat(RESET_POSITION, Moment(1, 0, 0), Moment(1, MAX_Y, 0));
      assert Frames(0) == [];
      assert [] + (Paints(0, MAX_Y) + [EnterVBlank]) == Paints(0, MAX_Y) + [EnterVBlank];
    } else {
      FramesFromReset(n - 1);
      FrameLog(n - 1);
      LogConcat(RESET_POSITION, Moment(n - 1, MAX_Y, 0), Moment(n, MAX_Y, 0));
    }
  }

  /** Every run from gpuReset() does the first part of frame after frame, and nothing else. */
  lemma RunPaintsFrames(actions: seq<Action>)
    requires forall i :: 0 <= i < |actions| ==> Steady(actions[i])
    ensures var end := RESET_POSITION + Ticks(actions);
      Run(RESET, [SwitchDisplay(true)] + actions).events <= Frames(end / FRAME + 1)
  {
    hide Log, Frames, Run;
    var end := RESET_POSITION + Ticks(actions);
    var n := end / FRAME + 1;
    RunFromReset(actions);
    FramesFromReset(n);
    LogConcat(RESET_POSITION, end, Moment(n, MAX_Y, 0));
  }

  /** Switched off and on again, the display begins behind the pixels of line 0, which its first frame leaves out. */
  lemma FirstFrameAfterSwitchingOn(t: Timing)
    ensures Run(t, [SwitchDisplay(false), SwitchDisplay(true)]) == Progress(At(252), [])
    ensures Log(252, Moment(0, MAX_Y, 0)) == Paints(1, MAX_Y) + [EnterVBlank]
  {
    var s := [SwitchDisplay(false), SwitchDisplay(true)];
    var off := Timing(false, HBlank, 0, 0);
    assert Run(off, s[1..]) == Progress(off.(on := true), []) by {
      assert s[1..] == [SwitchDisplay(true)] && s[1..][1..] == [];
    }
    assert Run(t, s) == Run(off, s[1..]);
    RunningIsAt(off.(on := true));
    hide Log, Run, At;
    LogAcross(0, 0, 252, 0);
    LinesLog(0, 1, MAX_Y);
    LogConcat(252, Moment(0, 1, 0), Moment(0, MAX_Y, 0));
  }

  /** A write to 0xFF44 in VBLANK puts the line and the mode at odds. */
  lemma ResetLineInVBlank(t: Timing)
    requires Running(t)
    ensures OnTrack(Act(t, ResetLine).next) <==> t.mode != VBlank
  {
  }
}
