/** The cursor overlay of cursor_capture.rs: `draw_crosshair`, which paints a
    10-pixel horizontal and a 10-pixel vertical red line into an RGBA frame
    with saturating `usize` arithmetic and a bounds guard on every pixel,
    and `draw_cursor_on_frame`, which skips an invisible cursor and turns
    the cursor position into a frame position with an `i32` subtraction and
    an `as usize` cast. The frame is a value: drawing returns the new frame.
    The Win32 cursor query is replaced by its result, passed in. */
module Cursor {
  import opened Bytes

  /** 2^64: `usize` values lie below it. */
  const USizeModulus: nat := 0x1_0000_0000_0000_0000

  type usize = x: nat | x < USizeModulus

  /** Signed 32-bit integers. */
  type i32 = x: int | -0x8000_0000 <= x < 0x8000_0000

  /** Length of each crosshair line, in pixels. */
  const Size: nat := 10

  /** `size / 2`: how far each line starts before the cursor. */
  const Half: nat := 5

  /** The crosshair colour: opaque red, as RGBA. */
  const Red: seq<byte> := [255, 0, 0, 255]

  /** `usize::saturating_add`. */
  function SatAdd(a: usize, b: usize): (r: usize)
    ensures a + b < USizeModulus ==> r == a + b
    ensures a + b >= USizeModulus ==> r == USizeModulus - 1
  {
    if a + b < USizeModulus then a + b else USizeModulus - 1
  }

  /** `usize::saturating_sub`. */
  function SatSub(a: usize, b: usize): (r: usize)
    ensures a >= b ==> r == a - b
    ensures a < b ==> r == 0
  {
    if a >= b then a - b else 0
  }

  /** Coordinate of the `d`-th pixel of a line through `c`:
      `c.saturating_add(d).saturating_sub(size / 2)`. */
  function LineCoord(c: usize, d: nat): usize
    requires d < Size
  {
    SatSub(SatAdd(c, d), Half)
  }

  /** The coordinates one line through `c` covers. */
  function LineSpan(c: usize): set<nat>
  {
    set d | 0 <= d < Size :: LineCoord(c, d)
  }

  /** Away from the top of the `usize` range, a line through `c` covers
      `c - 5 ..= c + 4`, clipped at 0. */
  lemma LineSpanRange(c: usize, v: nat)
    requires c + Size < USizeModulus
    ensures v in LineSpan(c) <==> (if c >= Half then c - Half else 0) <= v < c + Half
  {
    if (if c >= Half then c - Half else 0) <= v < c + Half {
      var d := if c >= Half then v - (c - Half) else v + Half - c;
      assert LineCoord(c, d) == v;
    }
  }

  /** The pixel number of `(col, row)` when the guard `col < width && row < height` holds. */
  function Target(w: nat, h: nat, col: nat, row: nat): Option<nat>
  {
    if col < w && row < h then Some(row * w + col) else None
  }

  /** The pixels the two loops visit, in order: the horizontal line on row
      `y`, then the vertical line on column `x`. */
  function Targets(w: nat, h: nat, x: usize, y: usize): (ts: seq<Option<nat>>)
    ensures |ts| == 2 * Size
  {
    seq(Size, d requires 0 <= d < Size => Target(w, h, LineCoord(x, d), y))
    + seq(Size, d requires 0 <= d < Size => Target(w, h, x, LineCoord(y, d)))
  }

  /** One guarded write: `frame[idx..idx + 4].copy_from_slice(&color)` when
      `idx + 3 < frame.len()`, with `idx = 4 * pixel`. */
  function PaintPixel<T>(frame: seq<T>, t: Option<nat>, color: seq<T>): (r: seq<T>)
    requires |color| == 4
    ensures |r| == |frame|
  {
    if t.Some? && 4 * t.value + 3 < |frame| then
      frame[..4 * t.value] + color + frame[4 * t.value + 4..]
    else frame
  }

  /** The write touches exactly the four bytes of the visited pixel, when
      they are all inside the frame. */
  lemma PaintPixelSpec<T>(frame: seq<T>, t: Option<nat>, color: seq<T>)
    requires |color| == 4
    ensures forall i :: 0 <= i < |frame| ==>
      PaintPixel(frame, t, color)[i] == (if t == Some(i / 4) && 4 * (i / 4) + 3 < |frame| then color[i % 4] else frame[i])
  {
  }

  /** The writes of a run of visits, in order. */
  function PaintAll<T>(frame: seq<T>, ts: seq<Option<nat>>, color: seq<T>): seq<T>
    requires |color| == 4
    decreases |ts|
  {
    if |ts| == 0 then frame else PaintPixel(PaintAll(frame, ts[..|ts| - 1], color), ts[|ts| - 1], color)
  }

  /** Byte `i` ends up painted when its pixel was visited and lies wholly
      inside the frame. */
  predicate Painted(len: nat, ts: seq<Option<nat>>, i: nat)
  {
    Some(i / 4) in ts && 4 * (i / 4) + 3 < len
  }

  /** A run of visits paints exactly the bytes of visited in-frame pixels,
      each with its channel of the colour, and leaves every other byte, and
      the length, as they were. */
  lemma {:induction false} PaintAllSpec<T>(frame: seq<T>, ts: seq<Option<nat>>, color: seq<T>)
    requires |color| == 4
    ensures |PaintAll(frame, ts, color)| == |frame|
    ensures forall i :: 0 <= i < |frame| ==>
      PaintAll(frame, ts, color)[i] == (if Painted(|frame|, ts, i) then color[i % 4] else frame[i])
    decreases |ts|
  {
    if |ts| > 0 {
      var init := ts[..|ts| - 1];
      PaintAllSpec(frame, init, color);
      PaintPixelSpec(PaintAll(frame, init, color), ts[|ts| - 1], color);
      forall i | 0 <= i < |frame|
        ensures Painted(|frame|, ts, i) <==> Painted(|frame|, init, i) || (ts[|ts| - 1] == Some(i / 4) && 4 * (i / 4) + 3 < |frame|)
      {
        assert ts == init + [ts[|ts| - 1]];
      }
    }
  }

  /** `draw_crosshair`, as a value: the frame with the crosshair painted. */
  function Crosshair(frame: seq<byte>, w: nat, h: nat, x: usize, y: usize): (r: seq<byte>)
    ensures |r| == |frame|
    ensures forall i :: 0 <= i < |frame| ==>
      r[i] == (if Painted(|frame|, Targets(w, h, x, y), i) then Red[i % 4] else frame[i])
  {
    PaintAllSpec(frame, Targets(w, h, x, y), Red);
    PaintAll(frame, Targets(w, h, x, y), Red)
  }

  /** Visiting one more pixel extends the run by one write. */
  lemma PaintAllStep<T>(frame: seq<T>, ts: seq<Option<nat>>, k: nat, color: seq<T>)
    requires |color| == 4 && k < |ts|
    ensures PaintAll(frame, ts[..k + 1], color) == PaintPixel(PaintAll(frame, ts[..k], color), ts[k], color)
  {
    assert ts[..k + 1][..k] == ts[..k];
  }

  /** The two loops of `draw_crosshair`; `Target` is the guard
      `px < width && y < height` (resp. `x < width && py < height`). */
  method DrawCrosshair(frame: seq<byte>, w: nat, h: nat, x: usize, y: usize) returns (out: seq<byte>)
    ensures out == Crosshair(frame, w, h, x, y)
    ensures |out| == |frame|
  {
    var ts := Targets(w, h, x, y);
    out := frame;
    var dx := 0;
    while dx < Size
      invariant 0 <= dx <= Size
      invariant out == PaintAll(frame, ts[..dx], Red)
    {
      var px := LineCoord(x, dx);
      PaintAllStep(frame, ts, dx, Red);
      assert ts[dx] == Target(w, h, px, y);
      out := PaintPixel(out, Target(w, h, px, y), Red);
      dx := dx + 1;
    }
    var dy := 0;
    while dy < Size
      invariant 0 <= dy <= Size
      invariant out == PaintAll(frame, ts[..Size + dy], Red)
    {
      var py := LineCoord(y, dy);
      PaintAllStep(frame, ts, Size + dy, Red);
      assert ts[Size + dy] == Target(w, h, x, py);
      out := PaintPixel(out, Target(w, h, x, py), Red);
      dy := dy + 1;
    }
    assert ts[..2 * Size] == ts;
  }

  /** Row-major pixel numbers are unique: `(col, row)` is recovered from
      `row * width + col` when `col < width`. */
  lemma PixelNumberUnique(w: nat, r1: nat, c1: nat, r2: nat, c2: nat)
    requires c1 < w && c2 < w && r1 * w + c1 == r2 * w + c2
    ensures r1 == r2 && c1 == c2
  {
    if r1 < r2 {
      MulMono(r1 + 1, w, r2, w);
      assert false;
    } else if r2 < r1 {
      MulMono(r2 + 1, w, r1, w);
      assert false;
    }
  }

  /** `(col, row)` lies on the crosshair through `(x, y)`: on row `y` within
      the horizontal line's span, or on column `x` within the vertical's. */
  predicate OnCross(x: usize, y: usize, col: nat, row: nat)
  {
    (row == y && col in LineSpan(x)) || (col == x && row in LineSpan(y))
  }

  /** A pixel on the cross is among the visited ones. */
  lemma OnCrossVisited(w: nat, h: nat, x: usize, y: usize, col: nat, row: nat)
    requires col < w && row < h && OnCross(x, y, col, row)
    ensures Some(row * w + col) in Targets(w, h, x, y)
  {
    var ts := Targets(w, h, x, y);
    if row == y && col in LineSpan(x) {
      var d :| 0 <= d < Size && LineCoord(x, d) == col;
      assert ts[d] == Some(row * w + col);
    } else {
      var d :| 0 <= d < Size && LineCoord(y, d) == row;
      assert ts[Size + d] == Some(row * w + col);
    }
  }

  /** A visited pixel is on the cross. */
  lemma VisitedOnCross(w: nat, h: nat, x: usize, y: usize, col: nat, row: nat)
    requires col < w && Some(row * w + col) in Targets(w, h, x, y)
    ensures OnCross(x, y, col, row)
  {
    var ts := Targets(w, h, x, y);
    var k :| 0 <= k < |ts| && ts[k] == Some(row * w + col);
    if k < Size {
      assert ts[k] == Target(w, h, LineCoord(x, k), y);
      PixelNumberUnique(w, y, LineCoord(x, k), row, col);
      assert col in LineSpan(x);
    } else {
      assert ts[k] == Target(w, h, x, LineCoord(y, k - Size));
      PixelNumberUnique(w, LineCoord(y, k - Size), x, row, col);
      assert row in LineSpan(y);
    }
  }

  /** Byte `c` of an in-frame pixel `p` is channel `c` of red exactly when
      `p` was visited. */
  lemma CrosshairAt(frame: seq<byte>, w: nat, h: nat, x: usize, y: usize, p: nat, c: nat)
    requires c < 4 && 4 * p + 3 < |frame|
    ensures Crosshair(frame, w, h, x, y)[4 * p + c] == if Some(p) in Targets(w, h, x, y) then Red[c] else frame[4 * p + c]
  {
    assert (4 * p + c) / 4 == p && (4 * p + c) % 4 == c;
  }

  /** Geometric reading of the crosshair: byte `c` of an in-frame pixel
      `(col, row)` of a `w` by `h` frame is channel `c` of red exactly when
      the pixel is on the cross, and is unchanged otherwise. */
  lemma CrosshairPixel(frame: seq<byte>, w: nat, h: nat, x: usize, y: usize, col: nat, row: nat, c: nat)
    requires col < w && row < h && c < 4
    requires 4 * (row * w + col) + 3 < |frame|
    ensures var i := 4 * (row * w + col) + c;
      Crosshair(frame, w, h, x, y)[i] == if OnCross(x, y, col, row) then Red[c] else frame[i]
  {
    CrosshairAt(frame, w, h, x, y, row * w + col, c);
    if OnCross(x, y, col, row) {
      OnCrossVisited(w, h, x, y, col, row);
    } else if Some(row * w + col) in Targets(w, h, x, y) {
      VisitedOnCross(w, h, x, y, col, row);
    }
  }

  /** What `get_cursor_info` reports (the icon data is always absent). */
  datatype CursorInfo = CursorInfo(x: i32, y: i32, visible: bool, width: u32, height: u32)

  /** The `i32` subtraction, wrapping as in a release build. */
  function WrapSub(a: i32, b: i32): (r: i32)
    ensures -0x8000_0000 <= a - b < 0x8000_0000 ==> r == a - b
    ensures (r - (a - b)) % U32Modulus == 0
  {
    var v := (a - b + 0x8000_0000) % U32Modulus - 0x8000_0000;
    assert v - (a - b) == ((a - b + 0x8000_0000) % U32Modulus) - (a - b + 0x8000_0000);
    v
  }

  /** `v as usize` for an `i32`: sign extension, so a negative value becomes
      `2^64 + v`. */
  function AsUsize(v: i32): (r: usize)
    ensures v >= 0 ==> r == v
    ensures v < 0 ==> r == USizeModulus + v
  {
    if v < 0 then USizeModulus + v else v
  }

  /** `draw_cursor_on_frame` on Windows, given what `get_cursor_info`
      returned: nothing without cursor information or for a hidden cursor,
      otherwise the crosshair at the cursor's position relative to the
      display origin. */
  function DrawCursorOnFrame(frame: seq<byte>, w: nat, h: nat, displayX: i32, displayY: i32,
                             cursor: Option<CursorInfo>): (r: seq<byte>)
    ensures |r| == |frame|
    ensures cursor.None? || !cursor.value.visible ==> r == frame
    ensures cursor.Some? && cursor.value.visible ==>
      r == Crosshair(frame, w, h, AsUsize(WrapSub(cursor.value.x, displayX)), AsUsize(WrapSub(cursor.value.y, displayY)))
  {
    match cursor
    case None => frame
    case Some(info) =>
      if !info.visible then frame
      else Crosshair(frame, w, h, AsUsize(WrapSub(info.x, displayX)), AsUsize(WrapSub(info.y, displayY)))
  }

  /** `draw_cursor`: on Windows a fresh capturer draws the cursor; elsewhere
      the stub capturer draws nothing. */
  function DrawCursor(windows: bool, frame: seq<byte>, w: nat, h: nat, displayX: i32, displayY: i32,
                      cursor: Option<CursorInfo>): (r: seq<byte>)
    ensures !windows ==> r == frame
    ensures windows ==> r == DrawCursorOnFrame(frame, w, h, displayX, displayY, cursor)
  {
    if windows then DrawCursorOnFrame(frame, w, h, displayX, displayY, cursor) else frame
  }

  /** A negative coordinate becomes at least `2^64 - 2^31`, beyond any
      frame dimension below `2^63`, and a line through it stays there. */
  lemma WrappedLineOutside(v: i32, d: nat, bound: nat)
    requires v < 0 && d < Size && bound < 0x8000_0000_0000_0000
    ensures AsUsize(v) >= bound && LineCoord(AsUsize(v), d) >= bound
  {
  }

  /** A cursor left of or above the display origin (with the `i32`
      difference not overflowing) leaves the frame untouched: the `as usize`
      cast puts it far outside any frame narrower and lower than `2^63`. */
  lemma OffscreenCursorDrawsNothing(frame: seq<byte>, w: nat, h: nat, displayX: i32, displayY: i32, info: CursorInfo)
    requires w < 0x8000_0000_0000_0000 && h < 0x8000_0000_0000_0000
    requires -0x8000_0000 <= info.x - displayX < 0x8000_0000 && -0x8000_0000 <= info.y - displayY < 0x8000_0000
    requires info.x < displayX || info.y < displayY
    ensures DrawCursorOnFrame(frame, w, h, displayX, displayY, Some(info)) == frame
  {
    var x := AsUsize(WrapSub(info.x, displayX));
    var y := AsUsize(WrapSub(info.y, displayY));
    var ts := Targets(w, h, x, y);
    forall k | 0 <= k < |ts|
      ensures ts[k].None?
    {
      if k < Size {
        if info.x < displayX {
          WrappedLineOutside(WrapSub(info.x, displayX), k, w);
        } else {
          WrappedLineOutside(WrapSub(info.y, displayY), 0, h);
        }
      } else {
        if info.y < displayY {
          WrappedLineOutside(WrapSub(info.y, displayY), k - Size, h);
        } else {
          WrappedLineOutside(WrapSub(info.x, displayX), 0, w);
        }
      }
    }
    var r := Crosshair(frame, w, h, x, y);
    assert forall i :: 0 <= i < |frame| ==> !Painted(|frame|, ts, i);
    assert r == frame;
  }
}
