/** What gpu.c computes, in numbers: ticks, bits of the registers, addresses, shades. */
module GpuNumbers {
  import opened Bytes
  import opened GpuTiming
  import opened Gpu

  // ---------------------------------------------------------------- time

  /** The 456 ticks of a line on the screen: 80 of mode 2, 172 of mode 3, 204 of mode 0. Lines 144 to 153 are mode 1. */
  lemma AtInNumbers(moment: nat)
    ensures var p := moment % 70224;
      At(moment) ==
        if p >= 65664 then Timing(true, VBlank, p % 456, p / 456)
        else if p % 456 < 80 then Timing(true, OamScanline, p % 456, p / 456)
        else if p % 456 < 252 then Timing(true, VramScanline, p % 456 - 80, p / 456)
        else Timing(true, HBlank, p % 456 - 252, p / 456)
  {
    var p := moment % 70224;
    assert p / 456 >= 144 <==> p >= 65664;
  }

  /** A line is painted at its tick 252; VBLANK begins with line 144. */
  lemma EventInNumbers(moment: nat)
    ensures var p := moment % 70224;
      EventAt(moment) ==
        if p < 65664 && p % 456 == 252 then [Paint(p / 456)] else if p == 65664 then [EnterVBlank] else []
  {
    var p := moment % 70224;
    assert p / 456 >= 144 <==> p >= 65664;
    assert p / 456 == 144 && p % 456 == 0 <==> p == 65664;
  }

  /** One step: the clock of 32 bits, and the next mode once its time is over. The line is a number of eight bits. */
  lemma AdvanceInNumbers(t: Timing, tick: int)
    requires t.on
    ensures var c, next := (t.clock + tick) % 0x1_0000_0000, if t.line == 153 then 0 else (t.line + 1) % 256;
      Advance(t, tick) ==
        match t.mode
        case OamScanline =>
          Progress(if c < 80 then t.(clock := c) else Timing(true, VramScanline, c - 80, t.line), [])
        case VramScanline =>
          if c < 172 then Progress(t.(clock := c), [])
          else Progress(Timing(true, HBlank, c - 172, t.line), [Paint(t.line)])
        case HBlank =>
          if c < 204 then Progress(t.(clock := c), [])
          else if next == 144 then Progress(Timing(true, VBlank, c - 204, 144), [EnterVBlank])
          else Progress(Timing(true, OamScanline, c - 204, next), [])
        case VBlank =>
          Progress(
            if c < 456 then t.(clock := c)
            else Timing(true, if next == 0 then OamScanline else VBlank, c - 456, next), [])
  {
  }

  lemma ResetInNumbers()
    ensures RESET == Timing(false, VBlank, 116, 153) && RESET_POSITION == 153 * 456 + 116
  {
  }

  /** What a write to the bus does to the clock. */
  lemma SwitchInNumbers(t: Timing, address: nat, value: byte)
    ensures Run(t, WriteActions(address, value)) ==
      Progress(
        if address == 0xFF40 then (if value & 0x80 != 0 then t.(on := true) else Timing(false, HBlank, 0, 0))
        else if address == 0xFF44 then t.(line := 0)
        else t, [])
  {
    var actions := WriteActions(address, value);
    assert actions != [] ==> actions[1..] == [];
  }

  // ---------------------------------------------------------------- registers

  /** The number of a mode. */
  function ModeNumber(mode: Mode): byte {
    match mode
    case HBlank => 0
    case VBlank => 1
    case OamScanline => 2
    case VramScanline => 3
  }

  /** The status register after a step: bits 0 and 1 are the mode, bit 2 tells whether LY = LYC, the others stay. */
  lemma StatusInNumbers(status: byte, lyc: nat, before: Timing, after: Timing)
    ensures var r := StatusAfter(status, lyc, before, after);
      && r & 0xF8 == status & 0xF8
      && r & 0x04 == (if before.line == after.line then status & 0x04 else if after.line == lyc then 0x04 else 0)
      && r & 0x03 == (if before.mode == after.mode then status & 0x03 else ModeNumber(after.mode))
  {
    ShownInNumbers(ShowEqual(status, after.line == lyc), after.mode);
    ShownInNumbers(status, after.mode);
    EqualInNumbers(status, after.line == lyc);
    hide ShowMode, ShowEqual, ModeNumber;
  }

  lemma ShownInNumbers(status: byte, mode: Mode)
    ensures ShowMode(status, mode) & 0xFC == status & 0xFC && ShowMode(status, mode) & 0x03 == ModeNumber(mode)
    ensures ShowMode(status, mode) & 0xF8 == status & 0xF8 && ShowMode(status, mode) & 0x04 == status & 0x04
  {
  }

  lemma EqualInNumbers(status: byte, equal: bool)
    ensures ShowEqual(status, equal) & 0xFB == status & 0xFB
    ensures ShowEqual(status, equal) & 0x04 == (if equal then 0x04 else 0)
    ensures ShowEqual(status, equal) & 0xF8 == status & 0xF8 && ShowEqual(status, equal) & 0x03 == status & 0x03
  {
  }

  /** Switching the display keeps bits 3 to 7 of the status register. */
  lemma SwitchedInNumbers(status: byte, on: bool, mode: Mode)
    ensures var r := Switched(status, on, mode);
      r & 0xF8 == status & 0xF8 && r & 0x07 == if on then ModeNumber(mode) else 0
  {
  }

  /** The bits of the status register that select the LCD interrupt: 3 VBLANK, 4 HBLANK, 5 mode 2, 6 LY = LYC. */
  lemma InterruptsInNumbers(status: byte, lyc: nat, before: Timing, after: Timing)
    ensures LcdRequested(status, lyc, before, after) <==>
      || (before.mode != after.mode && after.mode == VBlank && status & 0x08 != 0)
      || (before.mode != after.mode && after.mode == HBlank && status & 0x10 != 0)
      || (before.mode != after.mode && after.mode == OamScanline && status & 0x20 != 0)
      || (before.line != after.line && after.line == lyc && status & 0x40 != 0)
  {
    assert status & 0 == 0;
  }

  lemma RequestInNumbers(request: byte, vblank: bool, lcd: bool)
    ensures Request(request, vblank, lcd) == request | (if vblank then 0x01 else 0) | (if lcd then 0x02 else 0)
  {
  }

  /** What a write to the bus does to memory. */
  lemma WroteInNumbers(m: Memory, address: nat, value: byte)
    ensures var n := Wrote(m, address, value);
      && n.control == (if address == 0xFF40 then value else m.control)
      && n.scrollY == (if address == 0xFF42 then value as int else m.scrollY)
      && n.scrollX == (if address == 0xFF43 then value as int else m.scrollX)
      && |n.vram| == 0x2000
      && forall i :: 0 <= i < 0x2000 ==> n.vram[i] == if address == 0x8000 + i then value else m.vram[i]
  {
    hide Num;
    NumIsInt(value);
  }

  // ---------------------------------------------------------------- pixels

  /**
    * Pixel i of a line: row and column of the background by the scroll registers, the tile number at 0x1800 or 0x1C00
    * of video memory by bit 3 of the control register, the other tile set by bit 4, and the shade of the colour there.
    */
  lemma PixelInNumbers(g: Gpu, m: Memory, line: nat, i: nat)
    requires g.TilesReady()
    ensures var y, x := (line + m.scrollY) % 256, (m.scrollX + i) % 256;
      var number := m.vram[(if m.control & 0x08 != 0 then 0x1C00 else 0x1800) + y / 8 + x / 8] as int;
      var tile := if m.control & 0x10 != 0 && number < 128 then number + 256 else number;
      tile < 384 &&
      var colour := g.tiles[tile, y % 8, x % 8];
      g.PixelIn(m, line, i) ==
        if colour == 0 then BasicColour(255, 255, 255) else if colour == 1 then BasicColour(192, 192, 192)
        else if colour == 2 then BasicColour(96, 96, 96)
        else BasicColour(0, 0, 0)
  {
    hide Num;
    var y, x := (line + m.scrollY) % 256, (m.scrollX + i) % 256;
    NumIsInt(m.vram[MapStart(m.control, y) + x / 8]);
  }

  /** Row l of a picture is its cells from 160 * l on. */
  lemma RowInNumbers<T>(picture: seq<T>, line: nat, row: seq<T>, k: nat)
    requires |row| == 160 && 160 * (line + 1) <= |picture| && k < |picture|
    ensures WithRow(picture, line, row)[k] == if k / 160 == line then row[k % 160] else picture[k]
  {
    PixelOfRow(picture, line, row, k);
  }
}
