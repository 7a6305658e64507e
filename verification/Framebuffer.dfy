/** Scrolling the back buffer: a forward overlapping copy and a fill. */
module Framebuffer {
  import opened Widths
  import opened MemCommon

  const BACKGROUND: U32 := 0x0F0F0F
  const PX_PER_LINE: nat := 16

  /** A 32-bit product. */
  function Mul32(a: nat, b: nat): U32 {
    a * b % TWO32
  }

  /** A screen of height rows of pitch pixels lies at the start of the buffer. */
  predicate Holds(buf: Bytes, height: nat, pitch: nat) {
    4 * (height * pitch) <= |buf|
  }

  function Row(buf: Bytes, height: nat, pitch: nat, y: nat): Bytes
    requires Holds(buf, height, pitch) && y < height
  {
    RowFits(height, pitch, y);
    buf[4 * (y * pitch)..4 * (y * pitch) + 4 * pitch]
  }

  lemma RowFits(height: nat, pitch: nat, y: nat)
    requires y < height
    ensures y * pitch + pitch <= height * pitch
  {
    Gap(y + 1, height, pitch);
    assert (y + 1) * pitch == y * pitch + pitch;
  }

  /** Products of ordered factors, and the product of their difference. */
  lemma Gap(a: nat, b: nat, p: nat)
    requires a <= b
    ensures a * p <= b * p && (b - a) * p == b * p - a * p
  {}

  // ----- the intended effect -----

  /** Every row moves up by px rows; the rows that open up are background; bytes past the
      screen are kept. */
  predicate ScrolledBy(before: Bytes, after: Bytes, height: nat, pitch: nat, px: nat) {
    && Holds(before, height, pitch)
    && |after| == |before|
    && (forall y {:trigger Row(after, height, pitch, y)} :: 0 <= y < height ==>
      Row(after, height, pitch, y) ==
        if y + px < height then Row(before, height, pitch, y + px) else Fill32(BACKGROUND, pitch))
    && after[4 * (height * pitch)..] == before[4 * (height * pitch)..]
  }

  /** The buffer the two memory calls leave. */
  function Scrolled(buf: Bytes, height: nat, pitch: nat, px: nat): Bytes
    requires Holds(buf, height, pitch)
  {
    if px >= height then Filled(buf, 0, BACKGROUND, height * pitch)
    else
      Gap(px, height, pitch);
      Shifted(buf, px * pitch, height * pitch)
  }

  /** The first `total` pixels without their first `up`, then `up` background pixels. */
  function Shifted(buf: Bytes, up: nat, total: nat): Bytes
    requires up <= total && 4 * total <= |buf|
  {
    buf[4 * up..4 * total] + Fill32(BACKGROUND, up) + buf[4 * total..]
  }

  /** Rows of a fill are fills. */
  lemma RowOfFill(count: nat, at: nat, pitch: nat)
    requires at + pitch <= count
    ensures Fill32(BACKGROUND, count)[4 * at..4 * at + 4 * pitch] == Fill32(BACKGROUND, pitch)
  {
    hide ByteOf;
    var f := Fill32(BACKGROUND, count);
    forall j | 0 <= j < 4 * pitch ensures f[4 * at + j] == Fill32(BACKGROUND, pitch)[j] {
      assert (4 * at + j) % 4 == j % 4;
    }
  }

  lemma SliceOfFirst(a: Bytes, b: Bytes, c: Bytes, from: nat, to: nat)
    requires from <= to <= |a|
    ensures (a + b + c)[from..to] == a[from..to]
  {
    forall j | 0 <= j < to - from ensures (a + b + c)[from..to][j] == a[from..to][j] {
      assert (a + b + c)[from + j] == a[from + j];
    }
  }

  lemma SliceOfSecond(a: Bytes, b: Bytes, c: Bytes, from: nat, to: nat)
    requires |a| <= from <= to <= |a| + |b|
    ensures (a + b + c)[from..to] == b[from - |a|..to - |a|]
  {
    forall j | 0 <= j < to - from ensures (a + b + c)[from..to][j] == b[from - |a|..to - |a|][j] {
      assert (a + b + c)[from + j] == b[from + j - |a|];
    }
  }

  lemma SliceOfSlice(s: Bytes, lo: nat, hi: nat, from: nat, to: nat)
    requires lo <= hi <= |s| && from <= to <= hi - lo
    ensures s[lo..hi][from..to] == s[lo + from..lo + to]
  {
    forall j | 0 <= j < to - from ensures s[lo..hi][from..to][j] == s[lo + from..lo + to][j] {
      assert s[lo..hi][from + j] == s[lo + from + j];
    }
  }

  lemma RowMoved(buf: Bytes, height: nat, pitch: nat, px: nat, y: nat)
    requires Holds(buf, height, pitch) && y < height
    ensures |Scrolled(buf, height, pitch, px)| == |buf|
    ensures Row(Scrolled(buf, height, pitch, px), height, pitch, y) ==
      if y + px < height then Row(buf, height, pitch, y + px) else Fill32(BACKGROUND, pitch)
  {
    hide Shifted, Fill32, Filled;
    RowFits(height, pitch, y);
    if px >= height {
      RowCleared(buf, height * pitch, y * pitch, pitch);
    } else {
      Gap(px, height, pitch);
      assert (y + px) * pitch == y * pitch + px * pitch;
      if y + px < height {
        RowFits(height, pitch, y + px);
        RowKept(buf, px * pitch, height * pitch, y * pitch, pitch);
      } else {
        Gap(height, y + px, pitch);
        RowBlank(buf, px * pitch, height * pitch, y * pitch, pitch);
      }
    }
  }

  lemma RowCleared(buf: Bytes, total: nat, at: nat, pitch: nat)
    requires 4 * total <= |buf| && at + pitch <= total
    ensures |Filled(buf, 0, BACKGROUND, total)| == |buf|
    ensures Filled(buf, 0, BACKGROUND, total)[4 * at..4 * at + 4 * pitch] == Fill32(BACKGROUND, pitch)
  {
    RowOfFill(total, at, pitch);
    SliceOfSecond(buf[..0], Fill32(BACKGROUND, total), buf[4 * total..], 4 * at, 4 * at + 4 * pitch);
  }

  lemma RowKept(buf: Bytes, up: nat, total: nat, at: nat, pitch: nat)
    requires up <= total && 4 * total <= |buf| && at + up + pitch <= total
    ensures |Shifted(buf, up, total)| == |buf|
    ensures Shifted(buf, up, total)[4 * at..4 * at + 4 * pitch] == buf[4 * (at + up)..4 * (at + up) + 4 * pitch]
  {
    SliceOfFirst(buf[4 * up..4 * total], Fill32(BACKGROUND, up), buf[4 * total..], 4 * at, 4 * at + 4 * pitch);
    hide Fill32;
    SliceOfSlice(buf, 4 * up, 4 * total, 4 * at, 4 * at + 4 * pitch);
  }

  lemma RowBlank(buf: Bytes, up: nat, total: nat, at: nat, pitch: nat)
    requires up <= total && 4 * total <= |buf| && total <= at + up && at + pitch <= total
    ensures |Shifted(buf, up, total)| == |buf|
    ensures Shifted(buf, up, total)[4 * at..4 * at + 4 * pitch] == Fill32(BACKGROUND, pitch)
  {
    RowOfFill(up, at - (total - up), pitch);
    SliceOfSecond(buf[4 * up..4 * total], Fill32(BACKGROUND, up), buf[4 * total..], 4 * at, 4 * at + 4 * pitch);
  }

  /** The two memory calls move every pixel row up. */
  lemma ScrollMovesRows(buf: Bytes, height: nat, pitch: nat, px: nat)
    requires Holds(buf, height, pitch)
    ensures ScrolledBy(buf, Scrolled(buf, height, pitch, px), height, pitch, px)
  {
    var after := Scrolled(buf, height, pitch, px);
    TailKept(buf, height, pitch, px);
    hide Row, Scrolled;
    forall y | 0 <= y < height
      ensures Row(after, height, pitch, y) ==
        if y + px < height then Row(buf, height, pitch, y + px) else Fill32(BACKGROUND, pitch)
    {
      RowMoved(buf, height, pitch, px, y);
    }
  }

  lemma TailKept(buf: Bytes, height: nat, pitch: nat, px: nat)
    requires Holds(buf, height, pitch)
    ensures var after := Scrolled(buf, height, pitch, px);
      |after| == |buf| && after[4 * (height * pitch)..] == buf[4 * (height * pitch)..]
  {
    if px < height {
      Gap(px, height, pitch);
    }
  }

  /** The pixel k of a row of pixels. */
  function Pixel(row: Bytes, k: nat): nat
    requires 4 * k + 4 <= |row|
  {
    var b0: nat, b1: nat, b2: nat, b3: nat := row[4 * k], row[4 * k + 1], row[4 * k + 2], row[4 * k + 3];
    b0 + 0x100 * b1 + 0x1_0000 * b2 + 0x100_0000 * b3
  }

  /** Every pixel of a fill has the fill's colour. */
  lemma PixelOfFill(value: U32, count: nat, k: nat)
    requires k < count
    ensures Pixel(Fill32(value, count), k) == value
  {
    hide ByteOf;
    var f := Fill32(value, count);
    assert f[4 * k] == ByteOf(value, 0) && f[4 * k + 1] == ByteOf(value, 1);
    assert f[4 * k + 2] == ByteOf(value, 2) && f[4 * k + 3] == ByteOf(value, 3);
    FourBytes(value);
  }

  lemma FourBytes(value: U32)
    ensures var b0: nat, b1: nat, b2: nat, b3: nat :=
      ByteOf(value, 0), ByteOf(value, 1), ByteOf(value, 2), ByteOf(value, 3);
      b0 + 0x100 * b1 + 0x1_0000 * b2 + 0x100_0000 * b3 == value
  {
    var q1 := value / 0x100;
    var q2 := q1 / 0x100;
    hide ByteOf;
    FirstBytes(value);
    FirstBytes(q1);
    FirstBytes(q2);
    NextByte(value, 1);
    NextByte(value, 2);
    NextByte(q1, 1);
    FourDigits(value);
  }

  lemma FirstBytes(v: nat)
    ensures ByteOf(v, 0) == v % 0x100 && ByteOf(v, 1) == v / 0x100 % 0x100
  {}

  lemma NextByte(v: nat, j: nat)
    ensures ByteOf(v, j + 1) == ByteOf(v / 0x100, j)
  {}

  lemma FourDigits(v: U32)
    ensures v % 0x100 + 0x100 * (v / 0x100 % 0x100) + 0x1_0000 * (v / 0x100 / 0x100 % 0x100)
      + 0x100_0000 * (v / 0x100 / 0x100 / 0x100 % 0x100) == v
  {}

  /** The 32-bit pixel in column x of row y, or 0 outside the buffer. */
  function PixelAt(buf: Bytes, pitch: nat, x: nat, y: nat): nat {
    var o := 4 * (y * pitch + x);
    if o + 4 <= |buf| then
      (var b0: nat, b1: nat, b2: nat, b3: nat := buf[o], buf[o + 1], buf[o + 2], buf[o + 3];
       b0 + 0x100 * b1 + 0x1_0000 * b2 + 0x100_0000 * b3)
    else 0
  }

  /** Each pixel of the screen is the one n rows below it, or 0x0F0F0F where there was none, and
      what follows the screen is kept. */
  predicate PixelsMoved(before: Bytes, after: Bytes, height: nat, pitch: nat, n: nat) {
    && |after| == |before|
    && (forall x: nat, y: nat :: x < pitch && y < height ==>
      PixelAt(after, pitch, x, y) == if y + n < height then PixelAt(before, pitch, x, y + n) else 0x0F0F0F)
    && (forall i :: 4 * (height * pitch) <= i < |before| ==> after[i] == before[i])
  }

  lemma PixelOfRow(buf: Bytes, height: nat, pitch: nat, x: nat, y: nat)
    requires Holds(buf, height, pitch) && x < pitch && y < height
    ensures |Row(buf, height, pitch, y)| == 4 * pitch
    ensures PixelAt(buf, pitch, x, y) == Pixel(Row(buf, height, pitch, y), x)
  {
    RowFits(height, pitch, y);
  }

  /** Moving rows moves their pixels. */
  lemma ScrolledPixels(before: Bytes, after: Bytes, height: nat, pitch: nat, n: nat)
    requires ScrolledBy(before, after, height, pitch, n)
    ensures PixelsMoved(before, after, height, pitch, n)
  {
    forall x: nat, y: nat | x < pitch && y < height
      ensures PixelAt(after, pitch, x, y) == if y + n < height then PixelAt(before, pitch, x, y + n) else 0x0F0F0F
    {
      PixelOfRow(after, height, pitch, x, y);
      if y + n < height {
        PixelOfRow(before, height, pitch, x, y + n);
      } else {
        PixelOfFill(BACKGROUND, pitch, x);
      }
      hide Row, PixelAt, Pixel, Fill32;
      assert Row(after, height, pitch, y) ==
        if y + n < height then Row(before, height, pitch, y + n) else Fill32(BACKGROUND, pitch);
    }
    var s := 4 * (height * pitch);
    forall i | s <= i < |before| ensures after[i] == before[i] {
      assert after[s..][i - s] == before[s..][i - s];
    }
  }

  // ----- how many lines -----

  /** `lines * px_per_line` has 32 bits. Scrolling by it moves every screen up by 16 rows a line
      if and only if the product does not wrap, the wrapped distance still clears the screen,
      or rows are empty. */
  lemma ScrollIff(height: nat, pitch: nat, lines: U32, len: nat)
    requires height < TWO32 && 4 * (height * pitch) <= len
    ensures (forall buf: Bytes :: |buf| == len ==>
        ScrolledBy(buf, Scrolled(buf, height, pitch, Mul32(lines, PX_PER_LINE)), height, pitch, 16 * lines))
      <==> 16 * lines < TWO32 || 16 * lines % TWO32 >= height || pitch == 0
  {
    var px, wrapped := PX_PER_LINE * lines, Mul32(lines, PX_PER_LINE);
    hide Scrolled, ScrolledBy;
    if px < TWO32 || wrapped >= height || pitch == 0 {
      forall buf: Bytes | |buf| == len
        ensures ScrolledBy(buf, Scrolled(buf, height, pitch, wrapped), height, pitch, px)
      {
        ScrollMovesRows(buf, height, pitch, wrapped);
        SameScroll(buf, Scrolled(buf, height, pitch, wrapped), height, pitch, wrapped, px);
      }
    } else {
      var buf: Bytes := seq(len, _ => 0);
      RowFits(height, pitch, 0);
      BlackSurvives(buf, height, pitch, wrapped, px);
    }
  }

  lemma SameScroll(before: Bytes, after: Bytes, height: nat, pitch: nat, p: nat, q: nat)
    requires ScrolledBy(before, after, height, pitch, p)
    requires p == q || (p >= height && q >= height) || pitch == 0
    ensures ScrolledBy(before, after, height, pitch, q)
  {
    if pitch == 0 {
      assert Fill32(BACKGROUND, pitch) == [];
    }
  }

  /** A black screen is not cleared by a distance that wrapped below its height. */
  lemma BlackSurvives(buf: Bytes, height: nat, pitch: nat, wrapped: nat, px: nat)
    requires Holds(buf, height, pitch) && wrapped < height <= px && pitch >= 1
    requires forall k :: 0 <= k < |buf| ==> buf[k] == 0
    ensures !ScrolledBy(buf, Scrolled(buf, height, pitch, wrapped), height, pitch, px)
  {
    RowMoved(buf, height, pitch, wrapped, 0);
    var after := Scrolled(buf, height, pitch, wrapped);
    RowFits(height, pitch, wrapped);
    assert Row(after, height, pitch, 0)[0] == Row(buf, height, pitch, wrapped)[0] == 0;
    assert Fill32(BACKGROUND, pitch)[0] == 0x0F;
  }

  // ----- the driver -----

  class Screen {
    var initialized: bool
    var isDirty: bool
    const height: nat
    const pitch: nat
    const back: array<Octet>

    predicate Valid() {
      height * pitch < TWO32 && height < TWO32 && 4 * (height * pitch) <= back.Length
    }

    constructor (height: nat, pitch: nat, back: array<Octet>)
      requires height * pitch < TWO32 && height < TWO32 && 4 * (height * pitch) <= back.Length
      ensures Valid() && initialized && this.height == height && this.pitch == pitch && this.back == back
    {
      initialized, isDirty := true, true;
      this.height, this.pitch, this.back := height, pitch, back;
    }

    method Clear(color: U32)
      requires Valid()
      modifies this`isDirty, back
      ensures back[..] == Filled(old(back[..]), 0, color, height * pitch) && isDirty
    {
      SmallMod(height * pitch);
      Memset32(back, 0, color, Mul32(height, pitch));
      isDirty := true;
    }

    /** `scroll`: nothing when uninitialised or asked for no line. */
    method Scroll(lines: U32)
      requires Valid()
      modifies this`isDirty, back
      ensures initialized && lines != 0 ==>
        isDirty && back[..] == Scrolled(old(back[..]), height, pitch, Mul32(lines, PX_PER_LINE))
      ensures initialized && 0 < lines && 16 * lines < TWO32 ==>
        PixelsMoved(old(back[..]), back[..], height, pitch, 16 * lines)
      ensures !initialized || lines == 0 ==> back[..] == old(back[..]) && isDirty == old(isDirty)
    {
      if !initialized || lines == 0 {
        return;
      }
      var px := Mul32(lines, PX_PER_LINE);
      ScrollMovesRows(back[..], height, pitch, px);
      ScrolledPixels(back[..], Scrolled(back[..], height, pitch, px), height, pitch, px);
      Product(lines);
      hide *;
      if px >= height {
        ClearScrolls(back[..], height, pitch, px);
        Clear(BACKGROUND);
        return;
      }
      ShiftScrolls(back[..], height, pitch, px);
      MoveAndFill(Mul32(px, pitch), Mul32(height - px, pitch));
      isDirty := true;
    }

    /** The copy up and the fill below it. */
    method MoveAndFill(up: U32, kept: U32)
      requires 4 * (up + kept) <= back.Length
      modifies back
      ensures back[..] == Shifted(old(back[..]), up, up + kept)
    {
      ghost var buf := back[..];
      hide Fill32, Copied, Shifted;
      CopyThenFill(buf, up, kept);
      Memcpy(back, 0, 4 * up, 4 * kept);
      Memset32(back, 4 * kept, BACKGROUND, up);
    }
  }

  lemma Product(lines: U32)
    ensures 16 * lines < TWO32 ==> Mul32(lines, PX_PER_LINE) == 16 * lines
  {}

  lemma ClearScrolls(buf: Bytes, height: nat, pitch: nat, px: nat)
    requires Holds(buf, height, pitch) && px >= height
    ensures Scrolled(buf, height, pitch, px) == Filled(buf, 0, BACKGROUND, height * pitch)
  {}

  lemma ShiftScrolls(buf: Bytes, height: nat, pitch: nat, px: nat)
    requires Holds(buf, height, pitch) && px < height && height * pitch < TWO32
    ensures var up, kept := Mul32(px, pitch), Mul32(height - px, pitch);
      4 * (up + kept) <= |buf| && Scrolled(buf, height, pitch, px) == Shifted(buf, up, up + kept)
  {
    hide Shifted;
    Gap(px, height, pitch);
    SmallMod(px * pitch);
    SmallMod((height - px) * pitch);
  }

  lemma CopyThenFill(buf: Bytes, up: nat, kept: nat)
    requires 4 * up + 4 * kept <= |buf|
    ensures |Moved(buf, 0, 4 * up, 4 * kept)| == |buf|
    ensures Filled(Moved(buf, 0, 4 * up, 4 * kept), 4 * kept, BACKGROUND, up) == Shifted(buf, up, up + kept)
  {
    hide Fill32;
    var m := Moved(buf, 0, 4 * up, 4 * kept);
    assert m[..4 * kept] == buf[4 * up..4 * up + 4 * kept];
    assert m[4 * kept + 4 * up..] == buf[4 * kept + 4 * up..];
  }
}
