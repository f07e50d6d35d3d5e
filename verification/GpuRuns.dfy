/** The main loop of the emulator as the GPU sees it: what the processor writes, then the ticks it took. */
module GpuRuns {
  import opened Bytes
  import opened GpuTiming
  import opened Gpu
  import opened GpuNumbers

  /** One LoopCycle(): the writes of an instruction to the bus, and its ticks. */
  datatype Cycle = Cycle(writes: seq<(nat, byte)>, ticks: int)

  /** Registers and video memory as gpuReset() leaves them. */
  const CLEARED: Memory := Contents(0, 0, 0, seq(VRAM_LENGTH, _ => 0))

  /** The status register is left to the display. */
  predicate NoStatus(writes: seq<(nat, byte)>) {
    forall i :: 0 <= i < |writes| ==> writes[i].0 != 0xFF41
  }

  predicate OnBus(writes: seq<(nat, byte)>) {
    forall i :: 0 <= i < |writes| ==> writes[i].0 < 0x1_0000
  }

  function ActionsOfWrites(writes: seq<(nat, byte)>): seq<Action> {
    if writes == [] then []
    else
      var n := |writes| - 1;
      ActionsOfWrites(writes[..n]) + WriteActions(writes[n].0, writes[n].1)
  }

  function ActionsOfCycle(c: Cycle): seq<Action> {
    ActionsOfWrites(c.writes) + [Tick(c.ticks)]
  }

  function ActionsOf(cycles: seq<Cycle>): seq<Action> {
    if cycles == [] then []
    else
      var n := |cycles| - 1;
      ActionsOf(cycles[..n]) + ActionsOfCycle(cycles[n])
  }

  // ---------------------------------------------------------------- memory along a run

  function AfterWrites(m: Memory, writes: seq<(nat, byte)>): Memory {
    if writes == [] then m
    else
      var n := |writes| - 1;
      Wrote(AfterWrites(m, writes[..n]), writes[n].0, writes[n].1)
  }

  function MemoryAfter(m: Memory, cycles: seq<Cycle>): Memory {
    if cycles == [] then m
    else
      var n := |cycles| - 1;
      AfterWrites(MemoryAfter(m, cycles[..n]), cycles[n].writes)
  }

  /** The memory that a scan in this cycle reads: as the writes leave it. */
  function MemoriesOfCycle(t: Timing, m: Memory, c: Cycle): seq<Memory> {
    if PaintLines(Run(t, ActionsOfCycle(c)).events) == [] then [] else [AfterWrites(m, c.writes)]
  }

  /** The memory at each paint of a run that begins with the clock t and the memory m. */
  function MemoriesAt(t: Timing, m: Memory, cycles: seq<Cycle>): seq<Memory> {
    if cycles == [] then []
    else
      var n := |cycles| - 1;
      MemoriesAt(t, m, cycles[..n])
        + MemoriesOfCycle(Run(t, ActionsOf(cycles[..n])).next, MemoryAfter(m, cycles[..n]), cycles[n])
  }

  /** Events have turned one picture into another, each paint with the row that the memory at its place gives. */
  ghost predicate Painted(g: Gpu, before: seq<BasicColour>, after: seq<BasicColour>,
                          events: seq<Event>, memories: seq<Memory>)
    requires g.TilesReady()
    reads g.tiles
  {
    && |memories| == |PaintLines(events)|
    && after == Drawn(before, events, g.RowsIn(memories, PaintLines(events)))
  }

  lemma PaintedConcat(g: Gpu, before: seq<BasicColour>, between: seq<BasicColour>, after: seq<BasicColour>,
                      events: seq<Event>, memories: seq<Memory>, later: seq<Event>, laterMemories: seq<Memory>)
    requires g.TilesReady() && Painted(g, before, between, events, memories)
    requires Painted(g, between, after, later, laterMemories) && |before| == WIDTH * MAX_Y
    requires forall i :: 0 <= i < |events| ==> events[i].Paint? ==> events[i].line < MAX_Y
    ensures Painted(g, before, after, events + later, memories + laterMemories)
  {
    hide Gpu.RowIn, Drawn, PaintLines;
    var lines, laterLines := PaintLines(events), PaintLines(later);
    var rows, laterRows := g.RowsIn(memories, lines), g.RowsIn(laterMemories, laterLines);
    PaintLinesConcat(events, later);
    DrawnConcat(before, events, rows, later, laterRows);
    assert g.RowsIn(memories + laterMemories, lines + laterLines) == rows + laterRows;
  }

  lemma {:induction false} PaintLinesConcat(a: seq<Event>, b: seq<Event>)
    ensures PaintLines(a + b) == PaintLines(a) + PaintLines(b)
  {
    if a == [] {
      assert a + b == b;
    } else {
      hide *;
      PaintLinesConcat(a[1..], b);
      PaintLinesFirst(a, []);
      PaintLinesFirst(a, b);
      assert a + [] == a && a[1..] + [] == a[1..];
    }
  }

  lemma PaintLinesFirst(a: seq<Event>, b: seq<Event>)
    requires a != []
    ensures PaintLines(a + b) == (if a[0].Paint? then [a[0].line] else []) + PaintLines(a[1..] + b)
  {
    assert (a + b)[1..] == a[1..] + b;
  }

  // ---------------------------------------------------------------- the loop

  /** The writes of one instruction, in order. */
  method WriteAll(g: Gpu, writes: seq<(nat, byte)>)
    requires g.Valid() && OnBus(writes)
    modifies g, g.VRAM
    ensures g.Valid() && Run(old(g.Timing()), ActionsOfWrites(writes)) == Progress(g.Timing(), [])
    ensures g.Snapshot() == AfterWrites(old(g.Snapshot()), writes)
    ensures NoStatus(writes) && ShowsMode(old(g.lcdStatus), old(g.mode)) ==> ShowsMode(g.lcdStatus, g.mode)
  {
    hide Wrote, WriteActions, ShowsMode;
    ghost var shown := ShowsMode(g.lcdStatus, g.mode);
    ghost var t, m := g.Timing(), g.Snapshot();
    for i := 0 to |writes|
      invariant g.Valid() && Run(t, ActionsOfWrites(writes[..i])) == Progress(g.Timing(), [])
      invariant g.Snapshot() == AfterWrites(m, writes[..i])
      invariant NoStatus(writes) && shown ==> ShowsMode(g.lcdStatus, g.mode)
    {
      ghost var upto := writes[..i + 1];
      assert upto[..i] == writes[..i];
      RunConcat(t, ActionsOfWrites(writes[..i]), WriteActions(writes[i].0, writes[i].1));
      g.BusWrite(writes[i].0, writes[i].1);
    }
    assert writes[..|writes|] == writes;
  }

  /** LoopCycle() */
  method LoopCycle(g: Gpu, c: Cycle)
    requires g.Valid() && OnBus(c.writes)
    modifies g, g.VRAM, g.frameBuffer
    ensures g.Valid() && g.Snapshot() == AfterWrites(old(g.Snapshot()), c.writes)
    ensures var t, m := old(g.Timing()), old(g.Snapshot());
      var p := Run(t, ActionsOfCycle(c));
      g.Timing() == p.next && Painted(g, old(g.frameBuffer[..]), g.frameBuffer[..], p.events, MemoriesOfCycle(t, m, c))
    ensures NoStatus(c.writes) && ShowsMode(old(g.lcdStatus), old(g.mode)) ==> ShowsMode(g.lcdStatus, g.mode)
  {
    hide Advance, Drawn, Gpu.RowIn, AfterWrites, ActionsOfWrites, ShowsMode;
    ghost var t, picture := g.Timing(), g.frameBuffer[..];
    WriteAll(g, c.writes);
    ghost var now, row, memory := g.Timing(), g.Row(), g.Snapshot();
    ghost var events := Advance(now, c.ticks).events;
    RunConcat(t, ActionsOfWrites(c.writes), [Tick(c.ticks)]);
    OneTick(now, c.ticks);
    assert [] + events == events;
    StepEvents(now, c.ticks);
    NoRowNeeded(picture, events, row);
    assert row == g.RowIn(memory, now.line);
    g.Step(c.ticks);
    assert g.RowsIn([], []) == [] && g.RowsIn([memory], [now.line]) == [row];
  }

  /** First the writes of an instruction, one by one, then its ticks; a row is painted from memory behind the writes. */
  lemma CycleInOrder(t: Timing, m: Memory, c: Cycle, writes: seq<(nat, byte)>, address: nat, value: byte)
    ensures var first := Run(t, ActionsOfWrites(c.writes));
      var second := Advance(first.next, c.ticks);
      && Run(t, ActionsOfCycle(c)) == Progress(second.next, first.events + second.events)
      && MemoriesOfCycle(t, m, c) ==
           if PaintLines(first.events + second.events) == [] then [] else [AfterWrites(m, c.writes)]
    ensures AfterWrites(m, writes + [(address, value)]) == Wrote(AfterWrites(m, writes), address, value)
    ensures ActionsOfWrites(writes + [(address, value)]) == ActionsOfWrites(writes) + WriteActions(address, value)
  {
    hide Advance, PaintLines, Wrote, WriteActions, ActionsOfWrites, Run;
    RunConcat(t, ActionsOfWrites(c.writes), [Tick(c.ticks)]);
    OneTick(Run(t, ActionsOfWrites(c.writes)).next, c.ticks);
    OneMoreWrite(m, writes, address, value);
  }

  lemma OneMoreWrite(m: Memory, writes: seq<(nat, byte)>, address: nat, value: byte)
    ensures AfterWrites(m, writes + [(address, value)]) == Wrote(AfterWrites(m, writes), address, value)
    ensures ActionsOfWrites(writes + [(address, value)]) == ActionsOfWrites(writes) + WriteActions(address, value)
  {
    hide Wrote, WriteActions;
    assert (writes + [(address, value)])[..|writes|] == writes;
  }

  lemma OneTick(t: Timing, ticks: int)
    ensures Run(t, [Tick(ticks)]) == Advance(t, ticks)
  {
    hide Advance;
    assert [Tick(ticks)][1..] == [];
    var p := Advance(t, ticks);
    assert p.events + [] == p.events;
  }

  /** A step paints its own line or nothing. */
  lemma StepEvents(t: Timing, ticks: int)
    ensures var lines := PaintLines(Advance(t, ticks).events); lines == [] || lines == [t.line]
  {
    assert PaintLines([Paint(t.line)]) == [t.line] by { assert [Paint(t.line)][1..] == []; }
    assert PaintLines([EnterVBlank]) == [] by { assert [EnterVBlank][1..] == []; }
  }

  lemma {:induction false} NoRowNeeded<T>(picture: seq<T>, events: seq<Event>, row: seq<T>)
    ensures PaintLines(events) == [] ==> Drawn(picture, events, [row]) == Drawn(picture, events, [])
    decreases |events|
  {
    if events != [] {
      NoRowNeeded(picture, events[1..], row);
    }
  }

  /**
    * The loop of RunGameboyLoop(): time passes as in the timing machine, and the screen is what its paints draw, each
    * from the memory as the writes up to then have left it.
    */
  method RunCycles(g: Gpu, cycles: seq<Cycle>)
    requires g.Valid() && forall i :: 0 <= i < |cycles| ==> OnBus(cycles[i].writes)
    modifies g, g.VRAM, g.frameBuffer
    ensures g.Valid() && g.Snapshot() == MemoryAfter(old(g.Snapshot()), cycles)
    ensures var t, m := old(g.Timing()), old(g.Snapshot());
      var p := Run(t, ActionsOf(cycles));
      g.Timing() == p.next && Painted(g, old(g.frameBuffer[..]), g.frameBuffer[..], p.events, MemoriesAt(t, m, cycles))
    ensures (forall i :: 0 <= i < |cycles| ==> NoStatus(cycles[i].writes)) ==>
      ShowsMode(old(g.lcdStatus), old(g.mode)) ==> ShowsMode(g.lcdStatus, g.mode)
  {
    hide Act, Run, Drawn, Gpu.RowIn, Gpu.RowsIn, PaintLines, Painted, ActionsOfCycle, AfterWrites, MemoriesOfCycle,
      ShowsMode, NoStatus;
    ghost var shown := ShowsMode(g.lcdStatus, g.mode);
    ghost var t, m, picture := g.Timing(), g.Snapshot(), g.frameBuffer[..];
    NothingRun(g, t, picture);
    for i := 0 to |cycles|
      invariant g.Valid() && g.Snapshot() == MemoryAfter(m, cycles[..i])
      invariant var p := Run(t, ActionsOf(cycles[..i]));
        g.Timing() == p.next && Painted(g, picture, g.frameBuffer[..], p.events, MemoriesAt(t, m, cycles[..i]))
      invariant (forall k :: 0 <= k < i ==> NoStatus(cycles[k].writes)) && shown ==> ShowsMode(g.lcdStatus, g.mode)
    {
      ghost var done, c := cycles[..i], cycles[i];
      ghost var p, between := Run(t, ActionsOf(done)), g.frameBuffer[..];
      ghost var q, memory := Run(p.next, ActionsOfCycle(c)), g.Snapshot();
      assert cycles[..i + 1][..i] == done && cycles[..i + 1][i] == c;
      RunConcat(t, ActionsOf(done), ActionsOfCycle(c));
      PaintsInBounds(t, ActionsOf(done));
      LoopCycle(g, cycles[i]);
      PaintedConcat(g, picture, between, g.frameBuffer[..], p.events, MemoriesAt(t, m, done), q.events,
        MemoriesOfCycle(p.next, memory, c));
    }
    assert cycles[..|cycles|] == cycles;
  }

  lemma NothingRun(g: Gpu, t: Timing, picture: seq<BasicColour>)
    requires g.TilesReady()
    ensures Run(t, ActionsOf([])) == Progress(t, []) && Painted(g, picture, picture, [], [])
  {
  }

  /**
    * ResetGame(), the display switched on, and cycles that leave it on: whatever is written and however the ticks are
    * cut, time and events depend on the ticks in all, the events are the first part of frame after frame, and the
    * screen is what they draw: white, from the end of the first frame on.
    */
  method RunGame(g: Gpu, control: byte, cycles: seq<Cycle>)
    requires g.Shape() && control & 0x80 != 0 && forall i :: 0 <= i < |cycles| ==> OnBus(cycles[i].writes)
    requires forall i :: 0 <= i < |ActionsOf(cycles)| ==> Steady(ActionsOf(cycles)[i])
    modifies g, g.VRAM, g.tiles, g.frameBuffer
    ensures g.Valid() && g.TilesBlank() && g.Snapshot() == MemoryAfter(CLEARED.(control := control), cycles)
    ensures var end := 69884 + Ticks(ActionsOf(cycles));
      var events := Log(69884, end);
      var memories := MemoriesAt(At(RESET_POSITION), CLEARED.(control := control), cycles);
      && g.Timing() == At(end) && events <= Frames(end / FRAME + 1)
      && Painted(g, old(g.frameBuffer[..]), g.frameBuffer[..], events, memories)
      && (end >= 135888 ==> AllWhite(g.frameBuffer[..]))
      && ((forall i :: 0 <= i < |cycles| ==> NoStatus(cycles[i].writes)) ==> StatusAt(g.lcdStatus, end % 70224))
  {
    hide NoStatus, ShowsMode, ActionsOf, Run, Drawn, Gpu.RowIn, Log, Frames, PaintLines, At, Ticks, MemoriesAt, Painted;
    g.Reset();
    assert g.VRAM[..] == CLEARED.vram;
    g.WriteRegister(0xFF40, control);
    assert g.Timing() == At(RESET_POSITION) by {
      RunningIsAt(RESET.(on := true));
    }
    RunIsAt(RESET_POSITION, ActionsOf(cycles));
    GpuTiming.RunFromReset(ActionsOf(cycles));
    RunPaintsFrames(ActionsOf(cycles));
    ghost var picture, end := g.frameBuffer[..], RESET_POSITION + Ticks(ActionsOf(cycles));
    assert ShowsMode(g.lcdStatus, g.mode) by { SwitchShowsMode(0, true, VBlank); }
    RunCycles(g, cycles);
    ModeAt(end, g.mode, g.lcdStatus);
    if end >= Moment(1, MAX_Y, 0) {
      FirstFrameIsWhite(g, picture, g.frameBuffer[..], end,
        MemoriesAt(At(RESET_POSITION), CLEARED.(control := control), cycles));
    }
  }

  ghost predicate AllWhite(picture: seq<BasicColour>) {
    forall k :: 0 <= k < |picture| ==> picture[k] == BasicColour(255, 255, 255)
  }

  /** Bits 0 and 1 of the status register at tick p of a frame. */
  predicate StatusAt(status: byte, p: nat) {
    status & 0x03 == if p >= 65664 then 1 else if p % 456 < 80 then 2 else if p % 456 < 252 then 3 else 0
  }

  lemma ModeAt(moment: nat, mode: Mode, status: byte)
    requires mode == At(moment).mode
    ensures ShowsMode(status, mode) ==> StatusAt(status, moment % 70224)
  {
    AtInNumbers(moment);
  }

  /** gpuReset() clears the tiles, and no write to the bus reaches them, so the first frame turns the screen white. */
  lemma FirstFrameIsWhite(g: Gpu, before: seq<BasicColour>, after: seq<BasicColour>, end: nat, memories: seq<Memory>)
    requires g.TilesReady() && g.TilesBlank() && |before| == WIDTH * MAX_Y && end >= Moment(1, MAX_Y, 0)
    requires Painted(g, before, after, Log(RESET_POSITION, end), memories)
    ensures AllWhite(after)
  {
    hide Gpu.PixelIn, Gpu.RowIn, Drawn, Log, Paints, PaintLines, AllWhite;
    var first, later := Paints(0, MAX_Y) + [EnterVBlank], Log(Moment(1, MAX_Y, 0), end);
    FramesFromReset(1);
    assert Frames(0) == [] && [] + first == first;
    LogConcat(RESET_POSITION, Moment(1, MAX_Y, 0), end);
    PaintLinesConcat(first, later);
    PaintLinesOfFrame();
    var rows := g.RowsIn(memories, PaintLines(first + later));
    RowsAreWhite(g, memories, PaintLines(first + later));
    FirstEventsInBounds();
    assert rows == rows[..MAX_Y] + rows[MAX_Y..];
    DrawnConcat(before, first, rows[..MAX_Y], later, rows[MAX_Y..]);
    var between := Drawn(before, first, rows[..MAX_Y]);
    FrameRepaints(before, rows[..MAX_Y]);
    assert AllWhite(between) by {
      WhiteFrame(between, rows[..MAX_Y]);
    }
    WhiteStays(between, later, rows[MAX_Y..]);
  }

  lemma FirstEventsInBounds()
    ensures var events := Paints(0, MAX_Y) + [EnterVBlank];
      forall i :: 0 <= i < |events| ==> events[i].Paint? ==> events[i].line < MAX_Y
  {
  }

  lemma RowsAreWhite(g: Gpu, memories: seq<Memory>, lines: seq<nat>)
    requires g.TilesReady() && g.TilesBlank() && |memories| == |lines|
    ensures forall i :: 0 <= i < |lines| ==> AllWhite(g.RowsIn(memories, lines)[i])
  {
    forall i | 0 <= i < |lines| ensures AllWhite(g.RowsIn(memories, lines)[i]) {
      hide Num, TileNumber, MapStart, Column, Palette;
      var row := g.RowIn(memories[i], lines[i]);
      assert forall x :: 0 <= x < WIDTH ==> g.PixelIn(memories[i], lines[i], x) == Palette(0);
    }
  }

  lemma WhiteFrame(picture: seq<BasicColour>, rows: seq<seq<BasicColour>>)
    requires |picture| == WIDTH * MAX_Y && |rows| == MAX_Y
    requires forall i :: 0 <= i < |rows| ==> |rows[i]| == WIDTH && AllWhite(rows[i])
    requires forall k :: 0 <= k < |picture| ==> picture[k] == rows[k / WIDTH][k % WIDTH]
    ensures AllWhite(picture)
  {
  }

  lemma {:induction false} WhiteStays(picture: seq<BasicColour>, events: seq<Event>, rows: seq<seq<BasicColour>>)
    requires AllWhite(picture) && forall i :: 0 <= i < |rows| ==> AllWhite(rows[i])
    ensures AllWhite(Drawn(picture, events, rows))
    decreases |events|
  {
    if events != [] {
      var e, later := events[0], events[1..];
      if e.Paint? && rows != [] && |rows[0]| == WIDTH && (e.line + 1) * WIDTH <= |picture| {
        WhiteRow(picture, e.line, rows[0]);
        WhiteStays(WithRow(picture, e.line, rows[0]), later, rows[1..]);
      } else {
        WhiteStays(picture, later, rows);
      }
    }
  }

  lemma WhiteRow(picture: seq<BasicColour>, line: nat, row: seq<BasicColour>)
    requires AllWhite(picture) && AllWhite(row) && |row| == WIDTH && (line + 1) * WIDTH <= |picture|
    ensures AllWhite(WithRow(picture, line, row))
  {
    hide WithRow, Palette;
    forall k | 0 <= k < |picture| ensures WithRow(picture, line, row)[k] == BasicColour(255, 255, 255) {
      PixelOfRow(picture, line, row, k);
    }
  }

  // ---------------------------------------------------------------- one frame

  /** From line 144, where VBLANK begins, to line 144 of the next frame. */
  lemma AroundTheFrame(start: nat, ticks: nat)
    requires start < LINE && FRAME <= start + ticks < FRAME + LINE
    ensures var m := Moment(0, MAX_Y, start);
      && Log(m, m + ticks) == Paints(0, MAX_Y) + [EnterVBlank]
      && At(m + ticks) == Timing(true, VBlank, start + ticks - FRAME, MAX_Y)
  {
    hide Log, Paints;
    var begin, next, r := Moment(0, MAX_Y, 0), Moment(1, MAX_Y, 0), start + ticks - FRAME;
    FrameLog(0);
    LogWithin(0, MAX_Y, 0, start);
    LogWithin(1, MAX_Y, 0, r);
    LogConcat(begin, begin + start, next);
    LogConcat(begin + start, next, next + r);
    Places(1, MAX_Y, r);
  }

  /**
    * A frame of the emulator: from the line in which VBLANK begins to the same line of the next frame, however the
    * ticks are cut into cycles and whatever the processor writes meanwhile, as long as the display stays on and 0xFF44
    * is left alone. All 160*144 cells are repainted, once each, with the pixels that memory gives when their line is
    * painted.
    */
  method RunFrame(g: Gpu, cycles: seq<Cycle>)
    requires g.Valid() && forall i :: 0 <= i < |cycles| ==> OnBus(cycles[i].writes)
    requires Running(g.Timing()) && g.lcdYCoordinate == MAX_Y
    requires forall i :: 0 <= i < |ActionsOf(cycles)| ==> Steady(ActionsOf(cycles)[i])
    requires FRAME <= g.modeClock + Ticks(ActionsOf(cycles)) < FRAME + LINE
    modifies g, g.VRAM, g.frameBuffer
    ensures g.Valid() && Running(g.Timing()) && g.lcdYCoordinate == MAX_Y
    ensures g.Snapshot() == MemoryAfter(old(g.Snapshot()), cycles)
    ensures Run(old(g.Timing()), ActionsOf(cycles)) == Progress(g.Timing(), Paints(0, MAX_Y) + [EnterVBlank])
    ensures var memories := MemoriesAt(old(g.Timing()), old(g.Snapshot()), cycles);
      && |memories| == MAX_Y
      && forall l, x :: 0 <= l < 144 && 0 <= x < 160 ==>
           g.frameBuffer[l * 160 + x] == g.PixelIn(memories[l], l, x)
  {
    hide ActionsOf, Act, Run, Drawn, Gpu.RowIn, Gpu.PixelIn, Log, Paints, PaintLines, At, Ticks, MemoriesAt;
    ghost var t, clock, actions, picture := g.Timing(), g.modeClock, ActionsOf(cycles), g.frameBuffer[..];
    ghost var memories := MemoriesAt(t, g.Snapshot(), cycles);
    InVBlank(t);
    RunIsAt(Moment(0, MAX_Y, clock), actions);
    AroundTheFrame(clock, Ticks(actions));
    RunCycles(g, cycles);
    PaintLinesOfFrame();
    ghost var rows := g.RowsIn(memories, PaintLines(Paints(0, MAX_Y) + [EnterVBlank]));
    FrameRepaints(picture, rows);
    forall l, x | 0 <= l < MAX_Y && 0 <= x < WIDTH
      ensures g.frameBuffer[l * WIDTH + x] == g.PixelIn(memories[l], l, x)
    {
      CellOf(l, x);
      assert g.frameBuffer[l * WIDTH + x] == g.frameBuffer[..][l * WIDTH + x];
    }
  }

  lemma InVBlank(t: Timing)
    requires Running(t) && t.line == MAX_Y
    ensures t.clock < LINE && t == At(Moment(0, MAX_Y, t.clock))
  {
    RunningIsAt(t);
  }

  lemma CellOf(l: nat, x: nat)
    requires l < MAX_Y && x < WIDTH
    ensures (l * WIDTH + x) / WIDTH == l && (l * WIDTH + x) % WIDTH == x && l * WIDTH + x < WIDTH * MAX_Y
  {
  }

  lemma PaintLinesOfFrame()
    ensures var lines := PaintLines(Paints(0, MAX_Y) + [EnterVBlank]);
      |lines| == MAX_Y && forall l :: 0 <= l < MAX_Y ==> lines[l] == l
  {
    PaintLinesConcat(Paints(0, MAX_Y), [EnterVBlank]);
    assert [EnterVBlank][1..] == [];
    LinesOfPaints(0, MAX_Y);
  }

  lemma {:induction false} LinesOfPaints(first: nat, end: nat)
    requires first <= end
    ensures var lines := PaintLines(Paints(first, end));
      |lines| == end - first && forall i :: 0 <= i < end - first ==> lines[i] == first + i
    decreases end - first
  {
    if first < end {
      var p := Paints(first, end);
      assert p[0] == Paint(first) && p[1..] == Paints(first + 1, end);
      LinesOfPaints(first + 1, end);
    }
  }
}
