/** gpu.c: registers, video memory and frame buffer, driven by the ticks of the processor. */
module Gpu {
  import opened Bytes
  import opened GpuTiming

  const LCD_DISPLAY_ENABLE: byte := 0x80
  const WINDOW_TILE_MAP_DISPLAY_SELECT: byte := 0x40
  const WINDOW_DISPLAY_ENABLE: byte := 0x20
  const BG_WINDOW_TILE_DATA_SELECT: byte := 0x10
  const BG_TILE_MAP_DISPLAY_SELECT: byte := 0x08
  const SPRITE_SIZE: byte := 0x04
  const SPRITE_DISPLAY_ENABLE: byte := 0x02
  const BG_DISPLAY: byte := 0x01

  const STATUS_LYC_INT_SELECT: byte := 0x40
  const STATUS_MODE_2_INT_SELECT: byte := 0x20
  const STATUS_MODE_1_INT_SELECT: byte := 0x10
  const STATUS_MODE_0_INT_SELECT: byte := 0x08
  const STATUS_LYC_EQUALS_LY: byte := 0x04

  const VBLANK_INTERRUPT: byte := 0x01
  const LCD_INTERRUPT: byte := 0x02

  const WIDTH := 160
  const VRAM_LENGTH := 0x2000

  datatype BasicColour = BasicColour(r: nat, g: nat, b: nat)

  function Palette(colour: nat): BasicColour
    requires colour < 4
  {
    if colour == 0 then BasicColour(255, 255, 255)
    else if colour == 1 then BasicColour(192, 192, 192)
    else if colour == 2 then BasicColour(96, 96, 96)
    else BasicColour(0, 0, 0)
  }

  /** The number of a mode, as the lower bits of the status register show it. */
  function Code(mode: Mode): byte {
    match mode
    case HBlank => 0
    case VBlank => 1
    case OamScanline => 2
    case VramScanline => 3
  }

  function Keep(register: byte, mask: byte): byte { register & mask }

  function With(register: byte, bits: byte): byte { register | bits }

  predicate Has(register: byte, bits: byte) { register & bits != 0 }

  function UpdateBit(b: byte, position: byte, value: byte): byte {
    With(Keep(b, !position), value)
  }

  // ---------------------------------------------------------------- interrupts

  /** The bit of the status register that selects an interrupt for a mode, as the code assigns them. */
  function StatusSelect(mode: Mode): byte {
    match mode
    case HBlank => STATUS_MODE_1_INT_SELECT
    case VBlank => STATUS_MODE_0_INT_SELECT
    case OamScanline => STATUS_MODE_2_INT_SELECT
    case VramScanline => 0
  }

  /** The bit that the status register has for a mode by its name: 3 for mode 0, 4 for mode 1, 5 for mode 2. */
  function NamedSelect(mode: Mode): byte {
    match mode
    case HBlank => STATUS_MODE_0_INT_SELECT
    case VBlank => STATUS_MODE_1_INT_SELECT
    case OamScanline => STATUS_MODE_2_INT_SELECT
    case VramScanline => 0
  }

  /** The code asks for the interrupts that are selected by name if and only if bits 3 and 4 are alike. */
  lemma SelectsByName(status: byte)
    ensures (forall m :: Has(status, StatusSelect(m)) == Has(status, NamedSelect(m)))
       <==> Has(status, STATUS_MODE_0_INT_SELECT) == Has(status, STATUS_MODE_1_INT_SELECT)
  {
    hide Has;
    assert StatusSelect(HBlank) == STATUS_MODE_1_INT_SELECT && NamedSelect(HBlank) == STATUS_MODE_0_INT_SELECT;
    assert StatusSelect(VBlank) == STATUS_MODE_0_INT_SELECT && NamedSelect(VBlank) == STATUS_MODE_1_INT_SELECT;
  }

  /** With bit 3 alone, HBLANK is selected by name, and the code asks on entering VBLANK instead. */
  lemma SelectsSwapped()
    ensures Has(0x08, NamedSelect(HBlank)) && !Has(0x08, StatusSelect(HBlank))
    ensures !Has(0x08, NamedSelect(VBlank)) && Has(0x08, StatusSelect(VBlank))
  {
  }

  /** A step asks for the LCD interrupt when it enters a selected mode, or the line to compare with. */
  predicate LcdRequested(status: byte, lyc: nat, before: Timing, after: Timing) {
    || (before.mode != after.mode && Has(status, StatusSelect(after.mode)))
    || (before.line != after.line && after.line == lyc && Has(status, STATUS_LYC_INT_SELECT))
  }

  function Request(request: byte, vblank: bool, lcd: bool): byte {
    With(With(request, if vblank then VBLANK_INTERRUPT else 0), if lcd then LCD_INTERRUPT else 0)
  }

  lemma RequestTwice(request: byte, first: bool, vblank: bool, second: bool)
    ensures Request(Request(request, false, first), vblank, second) == Request(request, vblank, second || first)
  {
  }

  lemma RequestNothing(request: byte)
    ensures Request(request, false, false) == request
  {
  }

  lemma RequestOne(request: byte)
    ensures With(request, LCD_INTERRUPT) == Request(request, false, true)
    ensures With(request, VBLANK_INTERRUPT) == Request(request, true, false)
  {
  }

  /** The bit that shows LY = LYC has nothing to do with the bits that select interrupts. */
  lemma SelectKept(status: byte, equal: bool)
    ensures forall m :: Has(ShowEqual(status, equal), StatusSelect(m)) == Has(status, StatusSelect(m))
    ensures Has(ShowEqual(status, equal), STATUS_LYC_INT_SELECT) == Has(status, STATUS_LYC_INT_SELECT)
  {
    forall m: Mode ensures Has(ShowEqual(status, equal), StatusSelect(m)) == Has(status, StatusSelect(m)) {
      SelectBits(status, StatusSelect(m));
    }
    SelectBits(status, STATUS_LYC_INT_SELECT);
  }

  lemma SelectBits(status: byte, select: byte)
    requires select & 0x04 == 0
    ensures (status & !STATUS_LYC_EQUALS_LY) & select == status & select
    ensures (status | STATUS_LYC_EQUALS_LY) & select == status & select
  {
  }

  function ShowEqual(status: byte, equal: bool): byte {
    if equal then With(status, STATUS_LYC_EQUALS_LY) else Keep(status, !STATUS_LYC_EQUALS_LY)
  }

  function ShowMode(status: byte, mode: Mode): byte {
    With(Keep(status, 0xFC), Code(mode))
  }

  /** The lower bits show the mode; the bits that select interrupts stay. */
  lemma ModeShown(status: byte, mode: Mode)
    ensures Keep(ShowMode(status, mode), 0x03) == Code(mode)
    ensures forall m :: Has(ShowMode(status, mode), StatusSelect(m)) == Has(status, StatusSelect(m))
  {
    ModeBits(status, Code(mode), 0);
    forall m: Mode ensures Has(ShowMode(status, mode), StatusSelect(m)) == Has(status, StatusSelect(m)) {
      ModeBits(status, Code(mode), StatusSelect(m));
    }
  }

  /** The status register after a step. */
  function StatusAfter(status: byte, lyc: nat, before: Timing, after: Timing): byte {
    var compared := if before.line != after.line then ShowEqual(status, after.line == lyc) else status;
    if before.mode != after.mode then ShowMode(compared, after.mode) else compared
  }

  /** The status register shows the mode, if it did before. */
  lemma StatusShowsMode(status: byte, lyc: nat, before: Timing, after: Timing)
    requires Keep(status, 0x03) == Code(before.mode)
    ensures Keep(StatusAfter(status, lyc, before, after), 0x03) == Code(after.mode)
  {
    hide ShowMode, ShowEqual, Code, Keep;
    EqualLeavesMode(status, after.line == lyc);
    ModeShown(status, after.mode);
    ModeShown(ShowEqual(status, after.line == lyc), after.mode);
  }

  /** Bits 0 and 1 show the number of the mode. */
  predicate ShowsMode(status: byte, mode: Mode) {
    status & 0x03 ==
      match mode
      case HBlank => 0
      case VBlank => 1
      case OamScanline => 2
      case VramScanline => 3
  }

  lemma StepShowsMode(status: byte, lyc: nat, before: Timing, after: Timing)
    ensures ShowsMode(status, before.mode) ==> ShowsMode(StatusAfter(status, lyc, before, after), after.mode)
  {
    hide StatusAfter;
    if ShowsMode(status, before.mode) {
      StatusShowsMode(status, lyc, before, after);
    }
  }

  lemma SwitchShowsMode(status: byte, on: bool, mode: Mode)
    requires on || mode == HBlank
    ensures ShowsMode(Switched(status, on, mode), mode)
  {
  }

  lemma EqualLeavesMode(status: byte, equal: bool)
    ensures Keep(ShowEqual(status, equal), 0x03) == Keep(status, 0x03)
  {
  }

  lemma ModeBits(status: byte, code: byte, select: byte)
    requires code < 4 && select & 0x03 == 0
    ensures ((status & 0xFC) | code) & 0x03 == code && ((status & 0xFC) | code) & select == status & select
  {
  }

  lemma NextLineIsLine(line: nat)
    requires line < 256
    ensures NextLine(line) < 256 && NextLine(line) != line
    ensures (line <= MAX_LINES ==> NextLine(line) <= MAX_LINES) && (line < MAX_Y ==> NextLine(line) <= MAX_Y)
  {
  }

  lemma NoBits(bits: byte)
    ensures !Has(0, bits)
  {
  }

  lemma DisplayBit(control: byte, value: byte)
    ensures Has(UpdateBit(control, LCD_DISPLAY_ENABLE, Keep(value, LCD_DISPLAY_ENABLE)), LCD_DISPLAY_ENABLE)
      == Has(value, LCD_DISPLAY_ENABLE)
  {
  }

  /** The status register when the display is switched: the bits that select interrupts, and the mode. */
  function Switched(status: byte, on: bool, mode: Mode): byte {
    if on then With(Keep(status, 0xF8), Code(mode)) else Keep(status, 0xF8)
  }

  lemma EightBits(control: byte, value: byte)
    ensures UpdateBit(UpdateBit(UpdateBit(UpdateBit(UpdateBit(UpdateBit(UpdateBit(UpdateBit(control,
      0x80, Keep(value, 0x80)), 0x40, Keep(value, 0x40)), 0x20, Keep(value, 0x20)), 0x10, Keep(value, 0x10)),
      0x08, Keep(value, 0x08)), 0x04, Keep(value, 0x04)), 0x02, Keep(value, 0x02)), 0x01, Keep(value, 0x01)) == value
  {
  }

  // ---------------------------------------------------------------- pixels

  /** The tile behind a number of the map: with the data select bit, the first 128 come from the other set. */
  function TileNumber(control: byte, number: nat): (tile: nat)
    requires number < 256
    ensures tile < 384
  {
    if control & BG_WINDOW_TILE_DATA_SELECT != 0 && number < 128 then number + 256 else number
  }

  /** Where the map of a line begins: the tile row is added as it is, not times the 32 tiles of a row. */
  function MapStart(control: byte, lineStart: nat): (m: nat)
    requires lineStart < 256
    ensures m < VRAM_LENGTH - 992
  {
    MapBase(control) + lineStart / 8
  }

  function MapBase(control: byte): nat {
    if control & BG_TILE_MAP_DISPLAY_SELECT != 0 then 0x1C00 else 0x1800
  }

  /** A map has 32 numbers for each row of tiles; the address is that of the row of the line for the first row alone. */
  lemma MapStartIsRow(control: byte, lineStart: nat)
    requires lineStart < 256
    ensures MapStart(control, lineStart) == MapBase(control) + lineStart / 8 * 32 <==> lineStart < 8
  {
    hide MapBase;
  }

  /** The column of the background behind pixel i: 32 tiles, around the edge. */
  function Column(scrollX: nat, i: nat): nat {
    (scrollX + i) % 256
  }

  /** A picture with one of its rows replaced. */
  function WithRow<T>(picture: seq<T>, line: nat, row: seq<T>): (p: seq<T>)
    requires |row| == WIDTH && (line + 1) * WIDTH <= |picture|
    ensures |p| == |picture|
  {
    picture[..line * WIDTH] + row + picture[(line + 1) * WIDTH..]
  }

  /** The rows of a frame, put in place from line first on. */
  function WithRows<T>(picture: seq<T>, first: nat, rows: seq<seq<T>>): (p: seq<T>)
    requires forall i :: 0 <= i < |rows| ==> |rows[i]| == WIDTH
    requires (first + |rows|) * WIDTH <= |picture|
    ensures |p| == |picture|
    decreases |rows|
  {
    if rows == [] then picture
    else
      RowFits(first, |rows|, |picture|);
      WithRows(WithRow(picture, first, rows[0]), first + 1, rows[1..])
  }

  lemma RowFits(first: nat, n: nat, length: nat)
    requires n > 0 && (first + n) * WIDTH <= length
    ensures (first + 1) * WIDTH <= length
  {
  }

  /** A pixel belongs to the row of its line, and to no other. */
  lemma {:induction false} PixelOf<T>(picture: seq<T>, first: nat, rows: seq<seq<T>>, k: nat)
    requires forall i :: 0 <= i < |rows| ==> |rows[i]| == WIDTH
    requires (first + |rows|) * WIDTH <= |picture| && k < |picture|
    ensures var l := k / WIDTH;
      WithRows(picture, first, rows)[k] ==
        if first <= l < first + |rows| then rows[l - first][k % WIDTH] else picture[k]
    decreases |rows|
  {
    if rows != [] {
      RowFits(first, |rows|, |picture|);
      var next := WithRow(picture, first, rows[0]);
      PixelOf(next, first + 1, rows[1..], k);
      PixelOfRow(picture, first, rows[0], k);
    }
  }

  lemma PixelOfRow<T>(picture: seq<T>, line: nat, row: seq<T>, k: nat)
    requires |row| == WIDTH && (line + 1) * WIDTH <= |picture| && k < |picture|
    ensures WithRow(picture, line, row)[k] == if k / WIDTH == line then row[k % WIDTH] else picture[k]
  {
    var l, x := k / WIDTH, k % WIDTH;
    assert k == l * WIDTH + x;
    if l < line {
      assert k < line * WIDTH;
    } else if l > line {
      assert k >= (line + 1) * WIDTH;
    } else {
      assert k - line * WIDTH == x;
    }
  }

  /** What events make of a picture: each paint puts the next of the rows in place of its line. */
  function Drawn<T>(picture: seq<T>, events: seq<Event>, rows: seq<seq<T>>): (p: seq<T>)
    ensures |p| == |picture|
    decreases |events|
  {
    if events == [] then picture
    else
      var e, later := events[0], events[1..];
      if e.Paint? && rows != [] && |rows[0]| == WIDTH && (e.line + 1) * WIDTH <= |picture|
      then Drawn(WithRow(picture, e.line, rows[0]), later, rows[1..])
      else Drawn(picture, later, rows)
  }

  lemma {:induction false} PaintsDraw<T>(picture: seq<T>, first: nat, rows: seq<seq<T>>, last: seq<Event>)
    requires forall i :: 0 <= i < |rows| ==> |rows[i]| == WIDTH
    requires (first + |rows|) * WIDTH <= |picture| && last == [EnterVBlank]
    ensures Drawn(picture, Paints(first, first + |rows|) + last, rows) == WithRows(picture, first, rows)
    decreases |rows|
  {
    var events := Paints(first, first + |rows|) + last;
    if rows == [] {
      assert events == last && last[1..] == [];
    } else {
      RowFits(first, |rows|, |picture|);
      PaintsDraw(WithRow(picture, first, rows[0]), first + 1, rows[1..], last);
      assert events[0] == Paint(first) && events[1..] == Paints(first + 1, first + |rows|) + last;
    }
  }

  /** The events of a frame leave nothing of what was on the screen before: each cell is of the row of its line. */
  lemma FrameRepaints<T>(picture: seq<T>, rows: seq<seq<T>>)
    requires |picture| == WIDTH * MAX_Y && |rows| == MAX_Y && forall i :: 0 <= i < |rows| ==> |rows[i]| == WIDTH
    ensures var p := Drawn(picture, Paints(0, MAX_Y) + [EnterVBlank], rows);
      forall k :: 0 <= k < |picture| ==> p[k] == rows[k / WIDTH][k % WIDTH]
  {
    hide WithRows, Drawn;
    PaintsDraw(picture, 0, rows, [EnterVBlank]);
    forall k | 0 <= k < |picture|
      ensures WithRows(picture, 0, rows)[k] == rows[k / WIDTH][k % WIDTH]
    {
      PixelOf(picture, 0, rows, k);
    }
  }

  /** The screen after a run is what the events of its steps draw, one after the other. */
  lemma {:induction false} DrawnConcat<T>(picture: seq<T>, events: seq<Event>, rows: seq<seq<T>>, later: seq<Event>,
    laterRows: seq<seq<T>>)
    requires forall i :: 0 <= i < |events| ==> events[i].Paint? ==> (events[i].line + 1) * WIDTH <= |picture|
    requires forall i :: 0 <= i < |rows| ==> |rows[i]| == WIDTH
    requires |rows| == |PaintLines(events)|
    ensures Drawn(picture, events + later, rows + laterRows) == Drawn(Drawn(picture, events, rows), later, laterRows)
    decreases |events|
  {
    if events == [] {
      assert events + later == later && rows + laterRows == laterRows;
    } else {
      assert (events + later)[1..] == events[1..] + later;
      if events[0].Paint? {
        assert (rows + laterRows)[1..] == rows[1..] + laterRows && (rows + laterRows)[0] == rows[0];
        DrawnConcat(WithRow(picture, events[0].line, rows[0]), events[1..], rows[1..], later, laterRows);
      } else {
        DrawnConcat(picture, events[1..], rows, later, laterRows);
      }
    }
  }

  lemma DrawnOnce<T>(picture: seq<T>, row: seq<T>, line: nat)
    requires |row| == WIDTH && (line + 1) * WIDTH <= |picture|
    ensures Drawn(picture, [Paint(line)], [row]) == WithRow(picture, line, row)
  {
    assert [Paint(line)][1..] == [];
  }

  lemma NothingDrawn<T>(picture: seq<T>, row: seq<T>)
    ensures Drawn(picture, [], [row]) == picture && Drawn(picture, [EnterVBlank], [row]) == picture
  {
    assert [EnterVBlank][1..] == [];
  }

  lemma NextColumn(scrollX: nat, i: nat, offset: nat, x: nat)
    requires offset < 32 && x < 8 && 8 * offset + x == Column(scrollX, i)
    ensures Column(scrollX, i) / 8 == offset && Column(scrollX, i) % 8 == x
    ensures Column(scrollX, i + 1) == if x < 7 then 8 * offset + x + 1 else 8 * ((offset + 1) % 32)
  {
  }

  lemma FirstColumn(scrollX: nat)
    requires scrollX < 256
    ensures 8 * (scrollX / 8) + scrollX % 8 == Column(scrollX, 0)
  {
  }

  lemma RowInPlace<T>(picture: seq<T>, line: nat, row: seq<T>)
    requires |row| == WIDTH && (line + 1) * WIDTH <= |picture|
    ensures picture[..line * WIDTH] + row[..WIDTH] + picture[line * WIDTH + WIDTH..] == WithRow(picture, line, row)
  {
  }

  lemma OnePixelMore<T>(picture: seq<T>, start: nat, row: seq<T>, i: nat)
    requires i < |row| && start + |row| <= |picture|
    ensures (picture[..start] + row[..i] + picture[start + i..])[start + i := row[i]]
      == picture[..start] + row[..i + 1] + picture[start + i + 1..]
  {
  }

  /** Where the paints among events fall, in order. */
  function PaintLines(events: seq<Event>): seq<nat> {
    if events == [] then [] else (if events[0].Paint? then [events[0].line] else []) + PaintLines(events[1..])
  }

  // ---------------------------------------------------------------- the globals of gpu.c

  /** What a program puts into the registers and the video memory that a scan reads. */
  datatype Contents = Contents(control: byte, scrollX: nat, scrollY: nat, vram: seq<byte>)

  type Memory = m: Contents | m.scrollX < 256 && |m.vram| == VRAM_LENGTH
    witness Contents(0, 0, 0, seq(VRAM_LENGTH, _ => 0))

  /** What a write to the bus does to it. */
  function Wrote(m: Memory, address: nat, value: byte): Memory {
    if 0x8000 <= address < 0xA000 then m.(vram := m.vram[address - 0x8000 := value])
    else if address == 0xFF40 then m.(control := value)
    else if address == 0xFF42 then m.(scrollY := Num(value))
    else if address == 0xFF43 then m.(scrollX := Num(value))
    else m
  }

  class Gpu {
    var mode: Mode
    var modeClock: nat
    var lcdControl: byte
    var lcdStatus: byte
    var scrollX: nat
    var scrollY: nat
    var lcdYCoordinate: nat
    var lcdLYCompare: nat
    var objPalette0: byte
    var objPalette1: byte
    var lcdWindowX: byte
    var lcdWindowY: byte
    var interruptRequest: byte
    const VRAM: array<byte>
    const tiles: array3<nat>
    const frameBuffer: array<BasicColour>

    ghost predicate Shape() {
      && VRAM.Length == VRAM_LENGTH && frameBuffer.Length == WIDTH * MAX_Y
      && tiles.Length0 == 384 && tiles.Length1 == 8 && tiles.Length2 == 8
    }

    ghost predicate Valid()
      reads this, tiles
    {
      && Drawable() && InBounds(Timing()) && modeClock < CLOCK_LIMIT
      && scrollY < 256 && lcdLYCompare < 256
    }

    ghost predicate Drawable()
      reads this`scrollX, tiles
    {
      TilesReady() && scrollX < 256
    }

    ghost predicate TilesReady()
      reads tiles
    {
      && Shape()
      && (forall t, y, x :: 0 <= t < 384 && 0 <= y < 8 && 0 <= x < 8 ==> tiles[t, y, x] < 4)
    }

    ghost predicate TilesBlank()
      requires Shape()
      reads tiles
    {
      forall t, y, x :: 0 <= t < 384 && 0 <= y < 8 && 0 <= x < 8 ==> tiles[t, y, x] == 0
    }

    function Timing(): Timing
      reads this
    {
      GpuTiming.Timing.Timing(Has(lcdControl, LCD_DISPLAY_ENABLE), mode, modeClock, lcdYCoordinate)
    }

    ghost function Snapshot(): Memory
      requires Shape() && scrollX < 256
      reads this`lcdControl, this`scrollX, this`scrollY, VRAM
    {
      Contents(lcdControl, scrollX, scrollY, VRAM[..])
    }

    /** The colour that pixel i of a line has in m. */
    ghost function PixelIn(m: Memory, line: nat, i: nat): BasicColour
      requires TilesReady()
      reads tiles
    {
      var lineStart, column := (line + m.scrollY) % 256, Column(m.scrollX, i);
      var tile := TileNumber(m.control, Num(m.vram[MapStart(m.control, lineStart) + column / 8]));
      Palette(tiles[tile, lineStart % 8, column % 8])
    }

    ghost function RowIn(m: Memory, line: nat): (row: seq<BasicColour>)
      requires TilesReady()
      reads tiles
      ensures |row| == WIDTH && forall i :: 0 <= i < WIDTH ==> row[i] == PixelIn(m, line, i)
    {
      PixelsIn(m, line, WIDTH)
    }

    ghost function PixelsIn(m: Memory, line: nat, n: nat): (row: seq<BasicColour>)
      requires TilesReady()
      reads tiles
      ensures |row| == n && forall i :: 0 <= i < n ==> row[i] == PixelIn(m, line, i)
    {
      if n == 0 then [] else PixelsIn(m, line, n - 1) + [PixelIn(m, line, n - 1)]
    }

    /** A row for each of some lines, from the memory at the same place. */
    ghost function RowsIn(memories: seq<Memory>, lines: seq<nat>): (rows: seq<seq<BasicColour>>)
      requires TilesReady() && |memories| == |lines|
      reads tiles
      ensures |rows| == |lines| && forall i :: 0 <= i < |lines| ==> rows[i] == RowIn(memories[i], lines[i])
    {
      if lines == [] then []
      else
        var n := |lines| - 1;
        RowsIn(memories[..n], lines[..n]) + [RowIn(memories[n], lines[n])]
    }

    /** The pixels of the current line. */
    ghost function Row(): (row: seq<BasicColour>)
      requires Drawable()
      reads this`lcdControl, this`scrollX, this`scrollY, this`lcdYCoordinate, tiles, VRAM
      ensures |row| == WIDTH
    {
      RowIn(Snapshot(), lcdYCoordinate)
    }

    lemma RowAt(i: nat, offset: nat, x: nat)
      requires Drawable() && i < WIDTH && offset < 32 && x < 8 && 8 * offset + x == Column(scrollX, i)
      ensures var lineStart := (lcdYCoordinate + scrollY) % 256;
        var tile := TileNumber(lcdControl, Num(VRAM[MapStart(lcdControl, lineStart) + offset]));
        tiles[tile, lineStart % 8, x] < 4 && Row()[i] == Palette(tiles[tile, lineStart % 8, x])
    {
      hide Num, TileNumber, MapStart, Palette, Column;
      NextColumn(scrollX, i, offset, x);
      assert Row()[i] == PixelIn(Snapshot(), lcdYCoordinate, i);
    }

    /** gpuReadByte() */
    method ReadByte(address: nat) returns (b: byte)
      requires Shape()
      ensures b == if address < VRAM_LENGTH then VRAM[address] else 0
    {
      b := if address < VRAM_LENGTH then VRAM[address] else 0;
    }

    method Plot(at: nat, colour: BasicColour, ghost before: seq<BasicColour>, ghost start: nat,
      ghost row: seq<BasicColour>, ghost i: nat)
      requires i < |row| && start + |row| <= |before| && at == start + i && colour == row[i]
      requires frameBuffer[..] == before[..start] + row[..i] + before[start + i..]
      modifies frameBuffer
      ensures frameBuffer[..] == before[..start] + row[..i + 1] + before[start + i + 1..]
    {
      OnePixelMore(before, start, row, i);
      ghost var shown := frameBuffer[..];
      frameBuffer[at] := colour;
      assert frameBuffer[..] == shown[at := colour];
    }

    /** renderScan(); its checks for tile numbers above 383 never fire, as TileNumber shows. */
    method RenderScan()
      requires Drawable() && lcdYCoordinate < MAX_Y
      modifies frameBuffer
      ensures frameBuffer[..] == WithRow(old(frameBuffer[..]), lcdYCoordinate, Row())
    {
      hide Num, TileNumber, MapStart, Palette, Column, WithRow, Gpu.Row, Gpu.PixelIn;
      var line := lcdYCoordinate;
      var lineStart := (line + scrollY) % 256;
      var mapOffset := MapStart(lcdControl, lineStart);
      var lineOffset: nat, x: nat, y: nat := scrollX / 8, scrollX % 8, lineStart % 8;
      var canvasOffset := line * WIDTH;
      var number := ReadByte(mapOffset + lineOffset);
      var tile := TileNumber(lcdControl, Num(number));
      ghost var before, row := frameBuffer[..], Row();
      FirstColumn(scrollX);
      for i := 0 to WIDTH
        invariant canvasOffset == line * WIDTH + i && x < 8 && lineOffset < 32
        invariant 8 * lineOffset + x == Column(scrollX, i)
        invariant tile == TileNumber(lcdControl, Num(VRAM[mapOffset + lineOffset]))
        invariant frameBuffer[..] == before[..line * WIDTH] + row[..i] + before[line * WIDTH + i..]
      {
        var colour := tiles[tile, y, x];
        NextColumn(scrollX, i, lineOffset, x);
        RowAt(i, lineOffset, x);
        Plot(canvasOffset, Palette(colour), before, line * WIDTH, row, i);
        x := x + 1;
        canvasOffset := canvasOffset + 1;
        if x == 8 {
          x := 0;
          lineOffset := (lineOffset + 1) % 32;
          number := ReadByte(mapOffset + lineOffset);
          tile := TileNumber(lcdControl, Num(number));
        }
      }
      RowInPlace(before, line, row);
    }

    constructor ()
      ensures Shape() && fresh(VRAM) && fresh(tiles) && fresh(frameBuffer)
    {
      VRAM := new byte[VRAM_LENGTH];
      tiles := new nat[384, 8, 8];
      frameBuffer := new BasicColour[WIDTH * MAX_Y](_ => BasicColour(0, 0, 0));
    }

    /** gpuReset() */
    method Reset()
      requires Shape()
      modifies this, VRAM, tiles
      ensures Valid() && Timing() == RESET && interruptRequest == old(interruptRequest)
      ensures lcdControl == lcdStatus == 0 && scrollX == scrollY == lcdLYCompare == 0
      ensures objPalette0 == objPalette1 == lcdWindowX == lcdWindowY == 0
      ensures forall i :: 0 <= i < VRAM.Length ==> VRAM[i] == 0
      ensures TilesBlank()
    {
      mode := VBlank;
      modeClock := 116;
      ClearRegisters();
      NoBits(LCD_DISPLAY_ENABLE);
      hide Has;
      ClearMemory();
    }

    /** The registers in initGPU(). */
    method ClearRegisters()
      modifies this`lcdControl, this`lcdStatus, this`scrollX, this`scrollY, this`lcdYCoordinate, this`lcdLYCompare,
        this`objPalette0, this`objPalette1, this`lcdWindowX, this`lcdWindowY
      ensures lcdControl == lcdStatus == 0 && scrollX == scrollY == lcdLYCompare == 0 && lcdYCoordinate == 153
      ensures objPalette0 == objPalette1 == lcdWindowX == lcdWindowY == 0
    {
      lcdControl, lcdStatus := 0, 0;
      scrollX, scrollY := 0, 0;
      lcdYCoordinate, lcdLYCompare := 153, 0;
      objPalette0, objPalette1 := 0, 0;
      lcdWindowY, lcdWindowX := 0, 0;
    }

    /** The two calls of memset() in initGPU(). */
    method ClearMemory()
      requires Shape()
      modifies VRAM, tiles
      ensures forall i :: 0 <= i < VRAM.Length ==> VRAM[i] == 0
      ensures TilesBlank()
    {
      forall i | 0 <= i < VRAM.Length {
        VRAM[i] := 0;
      }
      forall t, y, x | 0 <= t < 384 && 0 <= y < 8 && 0 <= x < 8 {
        tiles[t, y, x] := 0;
      }
    }

    /** writeInterrupt() for the request register and a bit that validateInterrupt() lets through. */
    method RequestInterrupt(bit: byte)
      modifies this`interruptRequest
      ensures interruptRequest == With(old(interruptRequest), bit)
    {
      interruptRequest := With(interruptRequest, bit);
    }

    method NextScanline()
      requires lcdYCoordinate < 256
      modifies this`lcdYCoordinate, this`lcdStatus, this`interruptRequest
      ensures lcdYCoordinate == NextLine(old(lcdYCoordinate))
      ensures lcdStatus == ShowEqual(old(lcdStatus), lcdYCoordinate == lcdLYCompare)
      ensures interruptRequest == Request(old(interruptRequest), false,
        lcdYCoordinate == lcdLYCompare && Has(old(lcdStatus), STATUS_LYC_INT_SELECT))
    {
      hide Request, Has, StatusSelect, With, Keep;
      RequestOne(interruptRequest);
      RequestNothing(interruptRequest);
      SelectKept(lcdStatus, true);
      if lcdYCoordinate == MAX_LINES {
        lcdYCoordinate := 0;
      } else {
        lcdYCoordinate := (lcdYCoordinate + 1) % 256;
      }
      if lcdYCoordinate == lcdLYCompare {
        lcdStatus := With(lcdStatus, STATUS_LYC_EQUALS_LY);
        if Has(lcdStatus, STATUS_LYC_INT_SELECT) {
          RequestInterrupt(LCD_INTERRUPT);
        }
      } else {
        lcdStatus := Keep(lcdStatus, !STATUS_LYC_EQUALS_LY);
      }
    }

    method HandleLcdModeChange(inMode: Mode)
      modifies this`mode, this`lcdStatus, this`interruptRequest
      ensures mode == inMode && lcdStatus == ShowMode(old(lcdStatus), mode)
      ensures interruptRequest ==
        Request(old(interruptRequest), mode == VBlank, Has(old(lcdStatus), StatusSelect(mode)))
    {
      hide Request, Has, With, Keep;
      RequestOne(interruptRequest);
      RequestOne(Request(interruptRequest, false, true));
      RequestTwice(interruptRequest, true, true, false);
      RequestNothing(interruptRequest);
      ModeShown(lcdStatus, inMode);
      mode := inMode;
      lcdStatus := Keep(lcdStatus, 0xFC);
      lcdStatus := With(lcdStatus, Code(inMode));
      match mode
      case OamScanline =>
        if Has(lcdStatus, STATUS_MODE_2_INT_SELECT) {
          RequestInterrupt(LCD_INTERRUPT);
        }
      case HBlank =>
        if Has(lcdStatus, STATUS_MODE_1_INT_SELECT) {
          RequestInterrupt(LCD_INTERRUPT);
        }
      case VBlank =>
        if Has(lcdStatus, STATUS_MODE_0_INT_SELECT) {
          RequestInterrupt(LCD_INTERRUPT);
        }
        RequestInterrupt(VBLANK_INTERRUPT);
      case VramScanline =>
        NoSelect(old(lcdStatus));
    }

    lemma NoSelect(status: byte)
      ensures !Has(status, StatusSelect(VramScanline))
    {
    }

    /** The end of HBLANK, from its line on. */
    method LeaveHBlank()
      requires lcdYCoordinate < 256
      modifies this`mode, this`lcdYCoordinate, this`lcdStatus, this`interruptRequest
      ensures lcdYCoordinate == NextLine(old(lcdYCoordinate))
        && mode == (if lcdYCoordinate == MAX_Y then VBlank else OamScanline)
      ensures lcdStatus == ShowMode(ShowEqual(old(lcdStatus), lcdYCoordinate == lcdLYCompare), mode)
      ensures interruptRequest == Request(old(interruptRequest), mode == VBlank,
        Has(old(lcdStatus), StatusSelect(mode)) ||
        (lcdYCoordinate == lcdLYCompare && Has(old(lcdStatus), STATUS_LYC_INT_SELECT)))
    {
      hide ShowEqual, ShowMode, With, Keep, Request, StatusSelect, Code, Has;
      ghost var request, status := interruptRequest, lcdStatus;
      NextScanline();
      SelectKept(status, lcdYCoordinate == lcdLYCompare);
      if lcdYCoordinate == 144 {
        HandleLcdModeChange(VBlank);
      } else {
        HandleLcdModeChange(OamScanline);
      }
      ghost var matched := lcdYCoordinate == lcdLYCompare && Has(status, STATUS_LYC_INT_SELECT);
      RequestTwice(request, matched, mode == VBlank, Has(status, StatusSelect(mode)));
    }

    /** The end of a line in VBLANK. */
    method LeaveVBlankLine()
      requires lcdYCoordinate < 256 && mode == VBlank
      modifies this`mode, this`lcdYCoordinate, this`lcdStatus, this`interruptRequest
      ensures lcdYCoordinate == NextLine(old(lcdYCoordinate))
        && mode == (if lcdYCoordinate == 0 then OamScanline else VBlank)
      ensures lcdStatus ==
        if mode == VBlank then ShowEqual(old(lcdStatus), lcdYCoordinate == lcdLYCompare)
        else ShowMode(ShowEqual(old(lcdStatus), lcdYCoordinate == lcdLYCompare), mode)
      ensures interruptRequest == Request(old(interruptRequest), false,
        (mode != VBlank && Has(old(lcdStatus), StatusSelect(mode))) ||
        (lcdYCoordinate == lcdLYCompare && Has(old(lcdStatus), STATUS_LYC_INT_SELECT)))
    {
      hide ShowEqual, ShowMode, With, Keep, Request, StatusSelect, Code, Has;
      ghost var request, status := interruptRequest, lcdStatus;
      NextScanline();
      SelectKept(status, lcdYCoordinate == lcdLYCompare);
      if lcdYCoordinate == 0 {
        HandleLcdModeChange(OamScanline);
        ghost var matched := lcdYCoordinate == lcdLYCompare && Has(status, STATUS_LYC_INT_SELECT);
        RequestTwice(request, matched, false, Has(status, StatusSelect(mode)));
      }
    }

    /** The end of the scan of a line: its pixels, and HBLANK. */
    method LeaveVram()
      requires Drawable() && lcdYCoordinate < MAX_Y
      modifies this`mode, this`lcdStatus, this`interruptRequest, frameBuffer
      ensures mode == HBlank && lcdStatus == ShowMode(old(lcdStatus), HBlank)
      ensures interruptRequest == Request(old(interruptRequest), false, Has(old(lcdStatus), StatusSelect(HBlank)))
      ensures frameBuffer[..] == Drawn(old(frameBuffer[..]), [Paint(lcdYCoordinate)], [old(Row())])
    {
      hide ShowMode, Request, Has, WithRow, Gpu.Row, Drawn;
      DrawnOnce(frameBuffer[..], Row(), lcdYCoordinate);
      RenderScan();
      HandleLcdModeChange(HBlank);
    }

    /** gpuStep() */
    method Step(tick: int)
      requires Valid()
      modifies this`mode, this`modeClock, this`lcdYCoordinate, this`lcdStatus, this`interruptRequest, frameBuffer
      ensures Valid() && Timing() == Advance(old(Timing()), tick).next
      ensures lcdStatus == StatusAfter(old(lcdStatus), lcdLYCompare, old(Timing()), Timing())
      ensures ShowsMode(old(lcdStatus), old(mode)) ==> ShowsMode(lcdStatus, mode)
      ensures var events := Advance(old(Timing()), tick).events;
        && frameBuffer[..] == Drawn(old(frameBuffer[..]), events, [old(Row())])
        && interruptRequest == Request(old(interruptRequest), EnterVBlank in events,
             LcdRequested(old(lcdStatus), lcdLYCompare, old(Timing()), Timing()))
    {
      hide ShowEqual, ShowMode, With, Keep, StatusSelect, Code, WithRow, Drawn, Gpu.Row, Gpu.Drawable, Request, Has,
        NextLine, ShowsMode;
      NextLineIsLine(lcdYCoordinate);
      RequestNothing(interruptRequest);
      NothingDrawn(frameBuffer[..], Row());
      if !Has(lcdControl, LCD_DISPLAY_ENABLE) {
        return;
      }
      modeClock := (modeClock + tick) % CLOCK_LIMIT;
      match mode {
      case HBlank =>
        if modeClock >= HBLANK_CYCLE {
          modeClock := modeClock - HBLANK_CYCLE;
          LeaveHBlank();
        }
      case VBlank =>
        if modeClock >= VBLANK_CYCLE {
          modeClock := modeClock - VBLANK_CYCLE;
          LeaveVBlankLine();
        }
      case OamScanline =>
        if modeClock >= OAM_SCAN_CYCLE {
          modeClock := modeClock - OAM_SCAN_CYCLE;
          HandleLcdModeChange(VramScanline);
        }
      case VramScanline =>
        if modeClock >= VRAM_SCAN_CYCLE {
          modeClock := modeClock - VRAM_SCAN_CYCLE;
          LeaveVram();
        }
      }
      StepShowsMode(old(lcdStatus), lcdLYCompare, old(Timing()), Timing());
    }

    method UpdateLcdControlRegister(value: byte)
      requires Valid()
      modifies this`lcdControl, this`lcdYCoordinate, this`modeClock, this`mode, this`lcdStatus
      ensures Valid() && lcdControl == value
      ensures Timing() == Act(old(Timing()), SwitchDisplay(Has(value, LCD_DISPLAY_ENABLE))).next
      ensures lcdStatus == Switched(old(lcdStatus), Has(value, LCD_DISPLAY_ENABLE), mode)
    {
      hide UpdateBit, Has, Code, With, Keep;
      ghost var control := lcdControl;
      DisplayBit(lcdControl, value);
      EightBits(control, value);
      lcdControl := UpdateBit(lcdControl, LCD_DISPLAY_ENABLE, Keep(value, LCD_DISPLAY_ENABLE));
      if !Has(lcdControl, LCD_DISPLAY_ENABLE) {
        lcdYCoordinate := 0;
        modeClock := 0;
        mode := HBlank;
        lcdStatus := Keep(lcdStatus, 0xF8);
      } else {
        lcdStatus := With(Keep(lcdStatus, 0xF8), Code(mode));
      }
      lcdControl := UpdateBit(lcdControl, WINDOW_TILE_MAP_DISPLAY_SELECT, Keep(value, WINDOW_TILE_MAP_DISPLAY_SELECT));
      lcdControl := UpdateBit(lcdControl, WINDOW_DISPLAY_ENABLE, Keep(value, WINDOW_DISPLAY_ENABLE));
      lcdControl := UpdateBit(lcdControl, BG_WINDOW_TILE_DATA_SELECT, Keep(value, BG_WINDOW_TILE_DATA_SELECT));
      lcdControl := UpdateBit(lcdControl, BG_TILE_MAP_DISPLAY_SELECT, Keep(value, BG_TILE_MAP_DISPLAY_SELECT));
      lcdControl := UpdateBit(lcdControl, SPRITE_SIZE, Keep(value, SPRITE_SIZE));
      lcdControl := UpdateBit(lcdControl, SPRITE_DISPLAY_ENABLE, Keep(value, SPRITE_DISPLAY_ENABLE));
      lcdControl := UpdateBit(lcdControl, BG_DISPLAY, Keep(value, BG_DISPLAY));
    }

    /** gpuWriteRegister() */
    method WriteRegister(address: nat, value: byte)
      requires Valid()
      modifies this
      ensures Valid() && interruptRequest == old(interruptRequest)
      ensures Timing() ==
        if address == 0xFF40 then Act(old(Timing()), SwitchDisplay(Has(value, LCD_DISPLAY_ENABLE))).next
        else if address == 0xFF44 then Act(old(Timing()), ResetLine).next
        else old(Timing())
      ensures lcdControl == (if address == 0xFF40 then value else old(lcdControl))
      ensures lcdStatus ==
        if address == 0xFF40 then Switched(old(lcdStatus), Has(value, LCD_DISPLAY_ENABLE), mode)
        else if address == 0xFF41 then value
        else old(lcdStatus)
      ensures scrollY == if address == 0xFF42 then Num(value) else old(scrollY)
      ensures scrollX == if address == 0xFF43 then Num(value) else old(scrollX)
      ensures lcdLYCompare == if address == 0xFF45 then Num(value) else old(lcdLYCompare)
      ensures objPalette0 == if address == 0xFF48 then value else old(objPalette0)
      ensures objPalette1 == if address == 0xFF49 then value else old(objPalette1)
      ensures lcdWindowX == if address == 0xFF4A then value else old(lcdWindowX)
      ensures lcdWindowY == if address == 0xFF4B then value else old(lcdWindowY)
    {
      if address == 0xFF40 {
        UpdateLcdControlRegister(value);
        lcdControl := value;
      } else if address == 0xFF41 {
        lcdStatus := value;
      } else if address == 0xFF42 {
        scrollY := Num(value);
      } else if address == 0xFF43 {
        scrollX := Num(value);
      } else if address == 0xFF44 {
        lcdYCoordinate := 0;
      } else if address == 0xFF45 {
        lcdLYCompare := Num(value);
      } else if address == 0xFF48 {
        objPalette0 := value;
      } else if address == 0xFF49 {
        objPalette1 := value;
      } else if address == 0xFF4A {
        lcdWindowX := value;
      } else if address == 0xFF4B {
        lcdWindowY := value;
      }
    }

    /** gpuWriteByte(); updateTile() is never reached, as no address of the bus below 0x1800 comes here. */
    method WriteByte(address: nat, value: byte) returns (ok: bool)
      requires Valid() && address < 0x1_0000
      modifies VRAM
      ensures Valid() && (ok <==> 0x8000 <= address < 0xA000)
      ensures VRAM[..] == if ok then old(VRAM[..])[address - 0x8000 := value] else old(VRAM[..])
    {
      var modifiedAddress := (address - 0x8000) % 0x1_0000;
      if modifiedAddress < 0x2000 {
        VRAM[modifiedAddress] := value;
        ok := true;
      } else {
        ok := false;
      }
    }

    /** What mmuWriteByte() hands on to the GPU. */
    method BusWrite(address: nat, value: byte)
      requires Valid() && address < 0x1_0000
      modifies this, VRAM
      ensures Valid() && Run(old(Timing()), WriteActions(address, value)) == Progress(Timing(), [])
      ensures Snapshot() == Wrote(old(Snapshot()), address, value)
      ensures address == 0xFF40 || (address != 0xFF41 && ShowsMode(old(lcdStatus), old(mode))) ==>
        ShowsMode(lcdStatus, mode)
    {
      ghost var status := lcdStatus;
      if 0x8000 <= address < 0xA000 {
        var ok := WriteByte(address, value);
      } else if 0xFF40 <= address <= 0xFF4B {
        WriteRegister(address, value);
        if address == 0xFF40 {
          SwitchShowsMode(status, Has(value, LCD_DISPLAY_ENABLE), mode);
        }
      }
    }
  }

  /** The write to the bus as the clock sees it. */
  function WriteActions(address: nat, value: byte): seq<Action> {
    if address == 0xFF40 then [SwitchDisplay(Has(value, LCD_DISPLAY_ENABLE))]
    else if address == 0xFF44 then [ResetLine]
    else []
  }
}
