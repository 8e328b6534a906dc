/**
 * The marker renderer of the firmware: `applyAruco` draws `size` row bitmasks
 * on a 10 x 10 serpentine LED strip, `clearLEDs` turns every LED off.
 * The strip is an array of 100 colours; `leds.show()` has no effect on it.
 */
module LedMatrix {
  import opened Bits

  const LED_COUNT: nat := 100
  const LINE_LED_COUNT: nat := 10
  const OFF: uint32 := 0x000000

  /** The colour of a cell whose bit is clear; this revision uses black. */
  function OffCol(color: uint32): uint32
  {
    0x000000
  }

  /**
   * The bit of row `line` that the loop of `applyAruco` tests at column
   * counter `col`: even lines test bit size-1-col, odd lines bit col.
   */
  function CellBit(code: seq<uint8>, size: nat, line: nat, col: nat): bit
    requires line < |code| && col < size
  {
    if line % 2 == 1 then BitAt(code[line], col) else BitAt(code[line], size - 1 - col)
  }

  function CellColor(code: seq<uint8>, size: nat, color: uint32, line: nat, col: nat): uint32
    requires line < |code| && col < size
  {
    if CellBit(code, size, line, col) == 1 then color else OffCol(color)
  }

  /** The LED that column counter `col` of line `line` is written to. */
  function LedIndex(size: nat, line: nat, col: nat): int
    requires size <= LINE_LED_COUNT
  {
    if line % 2 == 1 then line * LINE_LED_COUNT + col + (LINE_LED_COUNT - size)
    else line * LINE_LED_COUNT + col
  }

  /** The colour LED i has after `applyAruco`, given its colour before. */
  function RenderedAt(prev: seq<uint32>, code: seq<uint8>, size: nat, color: uint32, i: nat): uint32
    requires size <= LINE_LED_COUNT && size <= |code| && i < |prev|
  {
    var line, pos := i / LINE_LED_COUNT, i % LINE_LED_COUNT;
    var offset := LINE_LED_COUNT - size;
    if line < size && line % 2 == 0 && pos < size then CellColor(code, size, color, line, pos)
    else if line < size && line % 2 == 1 && pos >= offset then CellColor(code, size, color, line, pos - offset)
    else prev[i]
  }

  /** The whole strip after `applyAruco`. */
  function Rendered(prev: seq<uint32>, code: seq<uint8>, size: nat, color: uint32): (r: seq<uint32>)
    requires size <= LINE_LED_COUNT && size <= |code|
    ensures |r| == |prev|
  {
    seq(|prev|, i requires 0 <= i < |prev| => RenderedAt(prev, code, size, color, i))
  }

  lemma LineAndPosition(line: nat, pos: nat)
    requires pos < LINE_LED_COUNT
    ensures (line * LINE_LED_COUNT + pos) / LINE_LED_COUNT == line
    ensures (line * LINE_LED_COUNT + pos) % LINE_LED_COUNT == pos
  {
  }

  method ApplyAruco(leds: array<uint32>, arCode: array<uint8>, size: uint8, color: uint32)
    requires leds.Length == LED_COUNT
    requires size <= LINE_LED_COUNT && size <= arCode.Length
    modifies leds
    ensures leds[..] == Rendered(old(leds[..]), arCode[..], size, color)
  {
    ghost var prev := leds[..];
    ghost var target := Rendered(prev, arCode[..], size, color);
    var line := 0;
    while line < size
      invariant 0 <= line <= size
      invariant forall i :: 0 <= i < LED_COUNT ==>
        leds[i] == if i / LINE_LED_COUNT < line then target[i] else prev[i]
    {
      if line % 2 == 1 {
        var offset := LINE_LED_COUNT - size;
        var col := size - 1;
        while col >= 0
          invariant -1 <= col < size
          invariant forall i :: 0 <= i < LED_COUNT ==>
            leds[i] == if i / LINE_LED_COUNT < line
                          || (i / LINE_LED_COUNT == line && i % LINE_LED_COUNT > col + offset)
                       then target[i] else prev[i]
        {
          var tmpColor := OffCol(color);
          if BitAt(arCode[line], col) == 1 {
            tmpColor := color;
          }
          LineAndPosition(line, col + offset);
          leds[line * LINE_LED_COUNT + col + offset] := tmpColor;
          col := col - 1;
        }
      } else {
        var col := 0;
        while col < size
          invariant 0 <= col <= size
          invariant forall i :: 0 <= i < LED_COUNT ==>
            leds[i] == if i / LINE_LED_COUNT < line
                          || (i / LINE_LED_COUNT == line && i % LINE_LED_COUNT < col)
                       then target[i] else prev[i]
        {
          var tmpColor := OffCol(color);
          if BitAt(arCode[line], size - col - 1) == 1 {
            tmpColor := color;
          }
          LineAndPosition(line, col);
          leds[line * LINE_LED_COUNT + col] := tmpColor;
          col := col + 1;
        }
      }
      line := line + 1;
    }
    assert leds[..] == target;
  }

  method ClearLeds(leds: array<uint32>)
    requires leds.Length == LED_COUNT
    modifies leds
    ensures forall i :: 0 <= i < LED_COUNT ==> leds[i] == OFF
  {
    var i := 0;
    while i < LED_COUNT
      invariant 0 <= i <= LED_COUNT
      invariant forall k :: 0 <= k < i ==> leds[k] == OFF
    {
      leds[i] := OFF;
      i := i + 1;
    }
  }

  /**
   * Each cell lands where the source's loops put it: on an even line r the
   * LED r*10+c shows bit size-1-c of code[r]; on an odd line the LED
   * r*10+c+(10-size) shows bit c; a clear bit gives black.
   */
  lemma CellsLit(prev: seq<uint32>, code: seq<uint8>, size: nat, color: uint32, r: nat, c: nat)
    requires |prev| == LED_COUNT && size <= LINE_LED_COUNT && size <= |code|
    requires r < size && c < size
    ensures r % 2 == 0 ==> Rendered(prev, code, size, color)[r * 10 + c]
                           == if BitAt(code[r], size - 1 - c) == 1 then color else 0x000000
    ensures r % 2 == 1 ==> Rendered(prev, code, size, color)[r * 10 + c + (10 - size)]
                           == if BitAt(code[r], c) == 1 then color else 0x000000
  {
    if r % 2 == 0 {
      LineAndPosition(r, c);
    } else {
      LineAndPosition(r, c + (10 - size));
    }
  }

  /** The physical LED at visual position v (counted from the left edge) of line r. */
  function VisualIndex(line: nat, v: nat): nat
    requires v < LINE_LED_COUNT
  {
    if line % 2 == 0 then line * LINE_LED_COUNT + v else line * LINE_LED_COUNT + (LINE_LED_COUNT - 1 - v)
  }

  /**
   * The marker is left-aligned with its most significant bit leftmost on
   * every line, whatever the wiring direction of that line.
   */
  lemma LeftAligned(prev: seq<uint32>, code: seq<uint8>, size: nat, color: uint32, r: nat, v: nat)
    requires |prev| == LED_COUNT && size <= LINE_LED_COUNT && size <= |code|
    requires r < size && v < size
    ensures Rendered(prev, code, size, color)[VisualIndex(r, v)]
            == if BitAt(code[r], size - 1 - v) == 1 then color else OffCol(color)
  {
    if r % 2 == 1 {
      var c := size - 1 - v;
      assert VisualIndex(r, v) == LedIndex(size, r, c);
    }
    CellsLit(prev, code, size, color, r, if r % 2 == 0 then v else size - 1 - v);
  }

  /** Every LED written lies on its own line and below size*10, so inside the strip. */
  lemma WritesInBounds(size: nat, line: nat, col: nat)
    requires 1 <= size <= LINE_LED_COUNT && line < size && col < size
    ensures line * LINE_LED_COUNT <= LedIndex(size, line, col) < (line + 1) * LINE_LED_COUNT
    ensures 0 <= LedIndex(size, line, col) < size * LINE_LED_COUNT <= LED_COUNT
  {
  }

  /** Distinct cells are written to distinct LEDs. */
  lemma LedIndexInjective(size: nat, l1: nat, c1: nat, l2: nat, c2: nat)
    requires size <= LINE_LED_COUNT && l1 < size && c1 < size && l2 < size && c2 < size
    requires LedIndex(size, l1, c1) == LedIndex(size, l2, c2)
    ensures l1 == l2 && c1 == c2
  {
    WritesInBounds(size, l1, c1);
    WritesInBounds(size, l2, c2);
  }

  /** Every LED that no cell is written to keeps its previous colour. */
  lemma UntouchedLedsKept(prev: seq<uint32>, code: seq<uint8>, size: nat, color: uint32, i: nat)
    requires |prev| == LED_COUNT && size <= LINE_LED_COUNT && size <= |code| && i < LED_COUNT
    requires forall line, col :: 0 <= line < size && 0 <= col < size ==> LedIndex(size, line, col) != i
    ensures Rendered(prev, code, size, color)[i] == prev[i]
  {
    var line, pos := i / LINE_LED_COUNT, i % LINE_LED_COUNT;
    var offset := LINE_LED_COUNT - size;
    assert line < size && line % 2 == 0 && pos < size ==> LedIndex(size, line, pos) == i;
    assert line < size && line % 2 == 1 && pos >= offset ==> LedIndex(size, line, pos - offset) == i;
  }

  /**
   * Drawn over a cleared strip, every LED ends either in the marker colour or
   * black, and every LED from line `size` on stays black.
   */
  lemma RenderOverCleared(code: seq<uint8>, size: nat, color: uint32, i: nat)
    requires size <= LINE_LED_COUNT && size <= |code| && i < LED_COUNT
    ensures var r := Rendered(seq(LED_COUNT, _ => OFF), code, size, color);
      (r[i] == color || r[i] == OFF) && (i >= size * LINE_LED_COUNT ==> r[i] == OFF)
  {
    assert i >= size * LINE_LED_COUNT ==> i / LINE_LED_COUNT >= size;
  }
}
