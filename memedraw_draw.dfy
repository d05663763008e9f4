/** Text layout control and the GIF backdrop recurrence of the meme
    renderer. Word wrapping, glyph rasterisation and font metrics are
    parameters; what is modelled is the order and placement of the drawing
    calls, the font-size search, and which pixels each output frame is
    built from. */
module MemedrawDraw {
  import opened Wrappers
  import opened GoStrings
  import opened Tmemes
  import opened MemedrawUtils

  // ---------------------------------------------------------------------
  // The drawing context

  /** One `DrawStringAnchored` call with the colour and font size current
      at the time of the call. */
  datatype Stroke = Stroke(text: string, x: real, y: real, color: Color, size: int)

  /** The drawing context (`gg.Context`), reduced to its current colour and
      font size and the sequence of strings drawn on it. */
  class Canvas {
    var ops: seq<Stroke>
    var color: Color
    var size: int

    constructor ()
      ensures ops == []
    {
      ops := [];
      color := Color(0, 0, 0);
      size := 0;
    }

    method SetRGB(c: Color)
      modifies this
      ensures color == c && size == old(size) && ops == old(ops)
    {
      color := c;
    }

    method SetFontFace(points: int)
      modifies this
      ensures size == points && color == old(color) && ops == old(ops)
    {
      size := points;
    }

    method DrawStringAnchored(text: string, x: real, y: real)
      modifies this
      ensures ops == old(ops) + [Stroke(text, x, y, color, size)]
      ensures color == old(color) && size == old(size)
    {
      ops := ops + [Stroke(text, x, y, color, size)];
    }
  }

  /** Word wrapping of a text at a width with a font size (`dc.WordWrap`). */
  type Wrap = (string, real, int) -> seq<string>

  // ---------------------------------------------------------------------
  // Width and font size

  /** oneForZero: a zero area width stands for the full image width. */
  function OneForZero(v: real): (r: real)
    ensures r != 0.0
    ensures v != 0.0 ==> r == v
  {
    if v == 0.0 then 1.0 else v
  }

  /** The wrap width: always taken from the first area of the line, whatever
      area is active. */
  function WrapWidth(line: TextLine, bw: int): real
    requires |line.field| >= 1
  {
    OneForZero(line.field[0].width) * bw as real
  }

  /** The font size the shrink loop settles on, starting from `size`. */
  function FitSize(wrap: Wrap, text: string, width: real, size: int): (r: int)
    ensures r <= size
    ensures size > 6 ==> r >= 6
    // a size of 6 or less never enters the loop
    ensures size <= 6 ==> r == size
    // the loop stops at a size whose wrapping has at most two lines, or at 6
    ensures |wrap(text, width, r)| <= 2 || r <= 6
    // and every larger size it tried wrapped to more than two lines
    ensures forall s :: r < s <= size ==> |wrap(text, width, s)| > 2
    decreases size
  {
    if |wrap(text, width, size)| > 2 && size > 6 then FitSize(wrap, text, width, size - 1)
    else size
  }

  // ---------------------------------------------------------------------
  // Outline offsets

  /** The visible outline size of overlayTextOnImage. */
  const OutlineSize: int := 6

  /** Whether the offset (dx, dy) is stroked: it lies strictly inside the
      circle of radius `n` (the corners are skipped). */
  predicate Kept(n: int, dx: int, dy: int) {
    dx * dx + dy * dy < n * n
  }

  /** The kept offsets (dx, dy) of row dy for dx from lo up to hi - 1, in
      order. */
  function Row(n: int, dy: int, lo: int, hi: int): seq<(int, int)>
    decreases hi - lo
  {
    if hi <= lo then []
    else Row(n, dy, lo, hi - 1) + (if Kept(n, hi - 1, dy) then [(hi - 1, dy)] else [])
  }

  /** The integers lo, lo + 1, ..., hi - 1. */
  function Range(lo: int, hi: int): (r: seq<int>)
    ensures |r| == if lo <= hi then hi - lo else 0
    ensures forall i :: 0 <= i < |r| ==> r[i] == lo + i
  {
    if lo <= hi then seq(hi - lo, i => lo + i) else []
  }

  lemma RangeMembers(lo: int, hi: int)
    ensures forall x :: x in Range(lo, hi) <==> lo <= x < hi
    ensures Increasing(Range(lo, hi))
  {
    forall x | lo <= x < hi ensures x in Range(lo, hi) {
      assert Range(lo, hi)[x - lo] == x;
    }
  }

  lemma RangeSnoc(lo: int, hi: int)
    requires lo <= hi
    ensures Range(lo, hi + 1) == Range(lo, hi) + [hi]
  {
  }

  predicate Increasing(xs: seq<int>) {
    forall i, j :: 0 <= i < j < |xs| ==> xs[i] < xs[j]
  }

  /** The kept offsets of the rows `ys`, each row swept over dx in [-n, n]. */
  function Rows(n: int, ys: seq<int>): seq<(int, int)>
    decreases |ys|
  {
    if ys == [] then []
    else Rows(n, ys[..|ys| - 1]) + Row(n, ys[|ys| - 1], -n, n + 1)
  }

  /** Every stroke offset of one line, in drawing order. */
  function Outline(n: int): seq<(int, int)> {
    Rows(n, Range(-n, n + 1))
  }

  predicate InDisc(n: int, dx: int, dy: int) {
    -n <= dx <= n && -n <= dy <= n && Kept(n, dx, dy)
  }

  /** Row-major order: by dy, then by dx. */
  predicate Before(a: (int, int), b: (int, int)) {
    a.1 < b.1 || (a.1 == b.1 && a.0 < b.0)
  }

  predicate StrictlyOrdered(s: seq<(int, int)>) {
    forall i, j :: 0 <= i < j < |s| ==> Before(s[i], s[j])
  }

  lemma {:induction false} RowMembers(n: int, dy: int, lo: int, hi: int)
    ensures forall o :: o in Row(n, dy, lo, hi) <==> o.1 == dy && lo <= o.0 < hi && Kept(n, o.0, dy)
    ensures StrictlyOrdered(Row(n, dy, lo, hi))
    decreases hi - lo
  {
    if lo < hi {
      RowMembers(n, dy, lo, hi - 1);
      var s := Row(n, dy, lo, hi - 1);
      var t: seq<(int, int)> := if Kept(n, hi - 1, dy) then [(hi - 1, dy)] else [];
      assert Row(n, dy, lo, hi) == s + t;
      forall i, j | 0 <= i < j < |s + t| ensures Before((s + t)[i], (s + t)[j]) {
        assert (s + t)[i] == s[i] && s[i] in s;
        if j >= |s| {
          assert (s + t)[j] == t[j - |s|];
        } else {
          assert (s + t)[j] == s[j];
        }
      }
    }
  }

  lemma {:induction false} RowsMembers(n: int, ys: seq<int>)
    requires Increasing(ys)
    ensures forall o :: o in Rows(n, ys) <==> o.1 in ys && -n <= o.0 <= n && Kept(n, o.0, o.1)
    ensures StrictlyOrdered(Rows(n, ys))
    decreases |ys|
  {
    if ys != [] {
      var front := ys[..|ys| - 1];
      var last := ys[|ys| - 1];
      RowsMembers(n, front);
      RowMembers(n, last, -n, n + 1);
      var s, t := Rows(n, front), Row(n, last, -n, n + 1);
      assert Rows(n, ys) == s + t;
      assert ys == front + [last];
      forall i, j | 0 <= i < j < |s + t| ensures Before((s + t)[i], (s + t)[j]) {
        if i < |s| && j >= |s| {
          assert (s + t)[i] == s[i] && s[i] in s;
          assert (s + t)[j] == t[j - |s|] && t[j - |s|] in t;
          var m :| 0 <= m < |front| && front[m] == s[i].1;
          assert ys[m] == front[m];
        } else if i < |s| {
          assert (s + t)[i] == s[i] && (s + t)[j] == s[j];
        } else {
          assert (s + t)[i] == t[i - |s|] && (s + t)[j] == t[j - |s|];
        }
      }
    }
  }

  /** Each line is stroked at exactly the offsets of the square [-n, n]²
      with dx*dx + dy*dy < n*n (the corners removed), each once, in
      row-major order. */
  lemma OutlineDisc(n: int)
    ensures forall dx, dy :: (dx, dy) in Outline(n) <==> InDisc(n, dx, dy)
    ensures StrictlyOrdered(Outline(n))
    ensures forall i, j :: 0 <= i < j < |Outline(n)| ==> Outline(n)[i] != Outline(n)[j]
  {
    RangeMembers(-n, n + 1);
    RowsMembers(n, Range(-n, n + 1));
    forall dx, dy | InDisc(n, dx, dy) ensures (dx, dy) in Outline(n) {
      assert (dx, dy).1 in Range(-n, n + 1);
    }
  }

  // ---------------------------------------------------------------------
  // The strokes of one text overlay

  /** The outline strokes of one line at the offsets `offs`, in order. */
  function Strokes(text: string, x: real, y: real, c: Color, size: int, offs: seq<(int, int)>): (r: seq<Stroke>)
    ensures |r| == |offs|
    decreases |offs|
  {
    if offs == [] then []
    else
      var o := offs[|offs| - 1];
      Strokes(text, x, y, c, size, offs[..|offs| - 1]) + [Stroke(text, x + o.0 as real, y + o.1 as real, c, size)]
  }

  lemma {:induction false} StrokesAppend(text: string, x: real, y: real, c: Color, size: int, a: seq<(int, int)>, b: seq<(int, int)>)
    ensures Strokes(text, x, y, c, size, a + b) == Strokes(text, x, y, c, size, a) + Strokes(text, x, y, c, size, b)
    decreases |b|
  {
    if b != [] {
      var b' := b[..|b| - 1];
      assert (a + b)[..|a + b| - 1] == a + b';
      StrokesAppend(text, x, y, c, size, a, b');
    } else {
      assert a + b == a;
    }
  }

  /** One line: the outline in the stroke colour, then the fill at (x, y). */
  function LineOps(text: string, x: real, y: real, stroke: Color, fill: Color, size: int, offs: seq<(int, int)>): seq<Stroke> {
    Strokes(text, x, y, stroke, size, offs) + [Stroke(text, x, y, fill, size)]
  }

  /** The baseline of line k of a block whose first line is at `y0`. */
  function LineY(y0: real, adv: real, k: nat): real {
    y0 + k as real * adv
  }

  /** The anchor's x in pixels on an image `bw` pixels wide. */
  function AnchorX(a: Area, bw: int): real {
    a.x * bw as real
  }

  /** The line advance: 1.25 times the font height. */
  function Advance(fh0: real): real {
    fh0 * 1.25
  }

  /** The first baseline of a block of `n` lines centred on `ay`: the block
      height is `n` advances less the spacing below the last line. */
  function BlockTop(n: nat, ay: real, bh: int, fh0: real): real {
    ay * bh as real - 0.5 * (n as real * fh0 * 1.25 - (1.25 - 1.0) * fh0)
  }

  /** All lines: line k is drawn at `LineY(y0, adv, k)`. */
  function LinesOps(lines: seq<string>, x: real, y0: real, adv: real, stroke: Color, fill: Color, size: int, offs: seq<(int, int)>): seq<Stroke>
    decreases |lines|
  {
    if lines == [] then []
    else
      LinesOps(lines[..|lines| - 1], x, y0, adv, stroke, fill, size, offs)
        + LineOps(lines[|lines| - 1], x, LineY(y0, adv, |lines| - 1), stroke, fill, size, offs)
  }

  /** The strokes of `lines` laid out as a block centred vertically on the
      anchor `a` of an image of `bw` by `bh` pixels, with font height `fh0`
      and the strokes at font size `size`. */
  function Layout(lines: seq<string>, a: Area, bw: int, bh: int, fh0: real, stroke: Color, fill: Color, size: int): seq<Stroke> {
    LinesOps(lines, AnchorX(a, bw), BlockTop(|lines|, a.y, bh, fh0), Advance(fh0), stroke, fill, size, Outline(OutlineSize))
  }

  /** What overlayTextOnImage draws for a line whose current area is `a`
      on an image of `bw` by `bh` pixels; `size0` is the recommended font
      size and `fh` the font height of a size. */
  function OverlayAt(line: TextLine, a: Area, bw: int, bh: int, size0: int, wrap: Wrap, fh: int -> real): seq<Stroke>
    requires |line.field| >= 1
  {
    var text := TrimSpace(line.text);
    if text == [] then []
    else
      var width := WrapWidth(line, bw);
      var size := FitSize(wrap, text, width, size0);
      Layout(wrap(text, width, size), a, bw, bh, fh(size0), line.strokeColor, line.color, size)
  }

  /** overlayTextOnImage for the frame `fr`. */
  function OverlayOps(fr: Frame, bw: int, bh: int, size0: int, wrap: Wrap, fh: int -> real): seq<Stroke>
    requires ValidFrame(fr)
  {
    OverlayAt(fr.line, AreaOf(fr), bw, bh, size0, wrap, fh)
  }

  /** The position of stroke j of line k when every line takes d strokes. */
  function StrokeIndex(k: nat, d: nat, j: nat): nat {
    k * d + j
  }

  /** (k + 1) * d == k * d + d, and its consequences for the stroke index. */
  lemma Block(k: nat, n: nat, d: nat)
    requires k < n
    ensures k * d + d <= n * d
    ensures (k + 1) * d == k * d + d
  {
    var m := n - k - 1;
    assert n * d == (k + 1 + m) * d == (k + 1) * d + m * d;
  }

  /** Each line contributes one stroke per outline offset and one fill. */
  lemma {:induction false} LinesOpsLen(lines: seq<string>, x: real, y0: real, adv: real, stroke: Color, fill: Color, size: int, offs: seq<(int, int)>)
    ensures |LinesOps(lines, x, y0, adv, stroke, fill, size, offs)| == |lines| * (|offs| + 1)
    decreases |lines|
  {
    if lines != [] {
      var n := |lines| - 1;
      LinesOpsLen(lines[..n], x, y0, adv, stroke, fill, size, offs);
      Block(n, n + 1, |offs| + 1);
    }
  }
  /** The strokes of all lines, stroke by stroke: line k takes the `d`
      strokes from `k * d`, where `d` is one more than the number of
      outline offsets, and they are exactly the strokes of that line drawn
      at `y0 + k * adv`. */
  lemma {:induction false} LinesOpsAt(lines: seq<string>, x: real, y0: real, adv: real, stroke: Color, fill: Color, size: int, offs: seq<(int, int)>, k: nat, j: nat)
    requires k < |lines| && j <= |offs|
    ensures StrokeIndex(k, |offs| + 1, j) < |LinesOps(lines, x, y0, adv, stroke, fill, size, offs)|
    ensures LinesOps(lines, x, y0, adv, stroke, fill, size, offs)[StrokeIndex(k, |offs| + 1, j)] ==
            LineOps(lines[k], x, LineY(y0, adv, k), stroke, fill, size, offs)[j]
    decreases |lines|
  {
    var n := |lines| - 1;
    var d := |offs| + 1;
    var front := lines[..n];
    var a := LinesOps(front, x, y0, adv, stroke, fill, size, offs);
    var b := LineOps(lines[n], x, LineY(y0, adv, n), stroke, fill, size, offs);
    assert lines != [];
    assert LinesOps(lines, x, y0, adv, stroke, fill, size, offs) == a + b;
    LinesOpsLen(front, x, y0, adv, stroke, fill, size, offs);
    if k < n {
      LinesOpsAt(front, x, y0, adv, stroke, fill, size, offs, k, j);
      assert front[k] == lines[k];
    } else {
      assert k * d + j - |a| == j;
    }
  }

  /** Line k of a laid-out block is filled at the anchor's x, at
      `k * 1.25 * fh0` below the top of the block, in the fill colour. */
  lemma LayoutAt(lines: seq<string>, a: Area, bw: int, bh: int, fh0: real, stroke: Color, fill: Color, size: int, k: nat)
    requires k < |lines|
    ensures var d := |Outline(OutlineSize)|;
            StrokeIndex(k, d + 1, d) < |Layout(lines, a, bw, bh, fh0, stroke, fill, size)| &&
            Layout(lines, a, bw, bh, fh0, stroke, fill, size)[StrokeIndex(k, d + 1, d)] ==
              Stroke(lines[k], AnchorX(a, bw), LineY(BlockTop(|lines|, a.y, bh, fh0), Advance(fh0), k), fill, size)
  {
    var offs := Outline(OutlineSize);
    var x, y0, adv := AnchorX(a, bw), BlockTop(|lines|, a.y, bh, fh0), Advance(fh0);
    assert Layout(lines, a, bw, bh, fh0, stroke, fill, size) == LinesOps(lines, x, y0, adv, stroke, fill, size, offs);
    LinesOpsAt(lines, x, y0, adv, stroke, fill, size, offs, k, |offs|);
    assert LineOps(lines[k], x, LineY(y0, adv, k), stroke, fill, size, offs)[|offs|] == Stroke(lines[k], x, LineY(y0, adv, k), fill, size);
  }

  /** The lines the overlay of `line` wraps to. */
  function WrappedLines(line: TextLine, bw: int, size0: int, wrap: Wrap): seq<string>
    requires |line.field| >= 1
  {
    var text := TrimSpace(line.text);
    wrap(text, WrapWidth(line, bw), FitSize(wrap, text, WrapWidth(line, bw), size0))
  }

  lemma OverlayIsLayout(line: TextLine, a: Area, bw: int, bh: int, size0: int, wrap: Wrap, fh: int -> real)
    requires |line.field| >= 1 && TrimSpace(line.text) != []
    ensures OverlayAt(line, a, bw, bh, size0, wrap, fh) ==
              Layout(WrappedLines(line, bw, size0, wrap), a, bw, bh, fh(size0), line.strokeColor, line.color,
                     FitSize(wrap, TrimSpace(line.text), WrapWidth(line, bw), size0))
  {
  }

  /** Nothing is drawn exactly when the trimmed text is empty or wraps to no
      line at all. */
  lemma OverlayEmptyIff(line: TextLine, a: Area, bw: int, bh: int, size0: int, wrap: Wrap, fh: int -> real)
    requires |line.field| >= 1
    ensures OverlayAt(line, a, bw, bh, size0, wrap, fh) == [] <==>
              (TrimSpace(line.text) == [] || WrappedLines(line, bw, size0, wrap) == [])
  {
    if TrimSpace(line.text) != [] {
      OverlayIsLayout(line, a, bw, bh, size0, wrap, fh);
      var lines := WrappedLines(line, bw, size0, wrap);
      if lines != [] {
        LayoutAt(lines, a, bw, bh, fh(size0), line.strokeColor, line.color,
                 FitSize(wrap, TrimSpace(line.text), WrapWidth(line, bw), size0), 0);
      }
    }
  }

  /** Line k is filled in the text colour at the font size the shrink loop
      settled on, while the line advance and the vertical centring use the
      height of the recommended size, read before the loop. */
  lemma OverlayGeometry(line: TextLine, a: Area, bw: int, bh: int, size0: int, wrap: Wrap, fh: int -> real, k: nat)
    requires |line.field| >= 1
    requires TrimSpace(line.text) != []
    requires k < |WrappedLines(line, bw, size0, wrap)|
    ensures var lines := WrappedLines(line, bw, size0, wrap);
            var d := |Outline(OutlineSize)|;
            StrokeIndex(k, d + 1, d) < |OverlayAt(line, a, bw, bh, size0, wrap, fh)| &&
            OverlayAt(line, a, bw, bh, size0, wrap, fh)[StrokeIndex(k, d + 1, d)] ==
              Stroke(lines[k], AnchorX(a, bw), LineY(BlockTop(|lines|, a.y, bh, fh(size0)), Advance(fh(size0)), k),
                     line.color, FitSize(wrap, TrimSpace(line.text), WrapWidth(line, bw), size0))
  {
    OverlayIsLayout(line, a, bw, bh, size0, wrap, fh);
    LayoutAt(WrappedLines(line, bw, size0, wrap), a, bw, bh, fh(size0), line.strokeColor, line.color,
             FitSize(wrap, TrimSpace(line.text), WrapWidth(line, bw), size0), k);
  }

  // ---------------------------------------------------------------------
  // overlayTextOnImage

  lemma StrokesOne(text: string, x: real, y: real, c: Color, size: int, a: seq<(int, int)>, dx: int, dy: int)
    ensures Strokes(text, x, y, c, size, a + [(dx, dy)]) ==
            Strokes(text, x, y, c, size, a) + [Stroke(text, x + dx as real, y + dy as real, c, size)]
  {
    assert (a + [(dx, dy)])[..|a|] == a;
  }

  /** The offset (dx, dy) as a list of at most one kept offset. */
  function KeptAt(n: int, dx: int, dy: int): seq<(int, int)> {
    if Kept(n, dx, dy) then [(dx, dy)] else []
  }

  /** Extending the strokes of row dy over [lo, dx) by the offset dx. */
  lemma RowStep(ops0: seq<Stroke>, text: string, x: real, y: real, c: Color, size: int, n: int, dy: int, lo: int, dx: int)
    requires lo <= dx
    ensures ops0 + Strokes(text, x, y, c, size, Row(n, dy, lo, dx)) + Strokes(text, x, y, c, size, KeptAt(n, dx, dy))
            == ops0 + Strokes(text, x, y, c, size, Row(n, dy, lo, dx + 1))
  {
    assert Row(n, dy, lo, dx + 1) == Row(n, dy, lo, dx) + KeptAt(n, dx, dy);
    StrokesAppend(text, x, y, c, size, Row(n, dy, lo, dx), KeptAt(n, dx, dy));
  }

  lemma RowsSnoc(n: int, lo: int, hi: int)
    requires lo <= hi
    ensures Rows(n, Range(lo, hi + 1)) == Rows(n, Range(lo, hi)) + Row(n, hi, -n, n + 1)
  {
    RangeSnoc(lo, hi);
    assert Range(lo, hi + 1)[..hi - lo] == Range(lo, hi);
  }

  /** Extending the strokes of the rows [lo, dy) by the row dy. */
  lemma RowsStep(ops0: seq<Stroke>, text: string, x: real, y: real, c: Color, size: int, n: int, lo: int, dy: int)
    requires lo <= dy
    ensures ops0 + Strokes(text, x, y, c, size, Rows(n, Range(lo, dy))) + Strokes(text, x, y, c, size, Row(n, dy, -n, n + 1))
            == ops0 + Strokes(text, x, y, c, size, Rows(n, Range(lo, dy + 1)))
  {
    RowsSnoc(n, lo, dy);
    StrokesAppend(text, x, y, c, size, Rows(n, Range(lo, dy)), Row(n, dy, -n, n + 1));
  }

  /** One step of the inner loop: strokes at offset (dx, dy) unless it lies
      outside the disc, which rounds the corners. */
  method StrokeAt(dc: Canvas, text: string, x: real, y: real, n: int, dx: int, dy: int)
    modifies dc
    ensures dc.ops == old(dc.ops) + Strokes(text, x, y, old(dc.color), old(dc.size), KeptAt(n, dx, dy))
    ensures dc.size == old(dc.size) && dc.color == old(dc.color)
  {
    if dx * dx + dy * dy < n * n {
      StrokesOne(text, x, y, dc.color, dc.size, [], dx, dy);
      dc.DrawStringAnchored(text, x + dx as real, y + dy as real);
    } else {
      assert dc.ops == dc.ops + [];
    }
  }

  /** The inner loop of the outline: one row dy, dx from -n to n. */
  method StrokeRow(dc: Canvas, text: string, x: real, y: real, n: int, dy: int)
    modifies dc
    ensures dc.ops == old(dc.ops) + Strokes(text, x, y, old(dc.color), old(dc.size), Row(n, dy, -n, n + 1))
    ensures dc.size == old(dc.size) && dc.color == old(dc.color)
  {
    ghost var ops0, c, size := dc.ops, dc.color, dc.size;
    assert ops0 + [] == ops0;
    var dx := -n;
    while dx <= n
      invariant dx == -n || dx <= n + 1
      invariant dc.ops == ops0 + Strokes(text, x, y, c, size, Row(n, dy, -n, dx))
      invariant dc.size == size && dc.color == c
    {
      StrokeAt(dc, text, x, y, n, dx, dy);
      RowStep(ops0, text, x, y, c, size, n, dy, -n, dx);
      dx := dx + 1;
    }
  }

  /** The outline of one line: rows dy from -n to n, each swept by
      StrokeRow, in the current colour. */
  method DrawOutline(dc: Canvas, text: string, x: real, y: real, n: int)
    modifies dc
    ensures dc.ops == old(dc.ops) + Strokes(text, x, y, old(dc.color), old(dc.size), Outline(n))
    ensures dc.size == old(dc.size) && dc.color == old(dc.color)
  {
    ghost var ops0, c, size := dc.ops, dc.color, dc.size;
    assert ops0 + [] == ops0;
    var dy := -n;
    while dy <= n
      invariant dy == -n || dy <= n + 1
      invariant dc.ops == ops0 + Strokes(text, x, y, c, size, Rows(n, Range(-n, dy)))
      invariant dc.size == size && dc.color == c
    {
      StrokeRow(dc, text, x, y, n, dy);
      RowsStep(ops0, text, x, y, c, size, n, -n, dy);
      dy := dy + 1;
    }
  }

  /** Strokes one line: the outline of the visible outline size in the
      stroke colour, then the fill. */
  method DrawLine(dc: Canvas, text: string, x: real, y: real, stroke: Color, fill: Color)
    modifies dc
    ensures dc.ops == old(dc.ops) + LineOps(text, x, y, stroke, fill, old(dc.size), Outline(OutlineSize))
    ensures dc.size == old(dc.size) && dc.color == fill
  {
    dc.SetRGB(stroke);
    DrawOutline(dc, text, x, y, OutlineSize);
    dc.SetRGB(fill);
    dc.DrawStringAnchored(text, x, y);
  }

  /** The shrinking loop of overlayTextOnImage: one point smaller while the
      text wraps to more than two lines and the size is above 6. */
  method ShrinkToFit(dc: Canvas, text: string, width: real, wrap: Wrap) returns (lines: seq<string>)
    modifies dc
    ensures dc.size == FitSize(wrap, text, width, old(dc.size))
    ensures lines == wrap(text, width, dc.size)
    ensures dc.ops == old(dc.ops) && dc.color == old(dc.color)
  {
    ghost var size0 := dc.size;
    lines := wrap(text, width, dc.size);
    while |lines| > 2 && dc.size > 6
      invariant FitSize(wrap, text, width, dc.size) == FitSize(wrap, text, width, size0)
      invariant lines == wrap(text, width, dc.size)
      invariant dc.ops == old(dc.ops) && dc.color == old(dc.color)
      decreases dc.size
    {
      dc.SetFontFace(dc.size - 1);
      lines := wrap(text, width, dc.size);
    }
  }

  lemma LineYNext(y0: real, adv: real, k: nat)
    ensures LineY(y0, adv, k) + adv == LineY(y0, adv, k + 1)
  {
  }

  /** Extending the strokes of lines [0, k) by line k. */
  lemma LinesStep(ops0: seq<Stroke>, lines: seq<string>, k: nat, x: real, y0: real, adv: real, stroke: Color, fill: Color, size: int, offs: seq<(int, int)>)
    requires k < |lines|
    ensures ops0 + LinesOps(lines[..k], x, y0, adv, stroke, fill, size, offs) + LineOps(lines[k], x, LineY(y0, adv, k), stroke, fill, size, offs)
            == ops0 + LinesOps(lines[..k + 1], x, y0, adv, stroke, fill, size, offs)
  {
    assert lines[..k + 1][..k] == lines[..k] && lines[..k + 1][k] == lines[k];
  }

  /** The loop over the wrapped lines: each one outlined and filled at x,
      one advance below the previous. */
  method DrawLines(dc: Canvas, lines: seq<string>, x: real, y0: real, adv: real, stroke: Color, fill: Color)
    modifies dc
    ensures dc.ops == old(dc.ops) + LinesOps(lines, x, y0, adv, stroke, fill, old(dc.size), Outline(OutlineSize))
    ensures dc.size == old(dc.size)
  {
    ghost var ops0, size := dc.ops, dc.size;
    assert ops0 + [] == ops0;
    var y := y0;
    var k := 0;
    while k < |lines|
      invariant 0 <= k <= |lines|
      invariant y == LineY(y0, adv, k)
      invariant dc.size == size
      invariant dc.ops == ops0 + LinesOps(lines[..k], x, y0, adv, stroke, fill, size, Outline(OutlineSize))
    {
      DrawLine(dc, lines[k], x, y, stroke, fill);
      LinesStep(ops0, lines, k, x, y0, adv, stroke, fill, size, Outline(OutlineSize));
      LineYNext(y0, adv, k);
      y := y + adv;
      k := k + 1;
    }
    assert lines[..k] == lines;
  }

  /** The block of wrapped lines centred vertically on the anchor `a`: the
      height formula of overlayTextOnImage, then the lines loop. */
  method DrawBlock(dc: Canvas, lines: seq<string>, a: Area, bw: int, bh: int, fontHeight: real, stroke: Color, fill: Color)
    modifies dc
    ensures dc.ops == old(dc.ops) + Layout(lines, a, bw, bh, fontHeight, stroke, fill, old(dc.size))
    ensures dc.size == old(dc.size)
  {
    var x := AnchorX(a, bw);
    var y := BlockTop(|lines|, a.y, bh, fontHeight);
    DrawLines(dc, lines, x, y, Advance(fontHeight), stroke, fill);
  }

  /** overlayTextOnImage. `size0` is fontSizeForImage of the image; the font
      height is measured at that size, before any shrinking. Every stroke is
      anchored at (0.5, 1.0). */
  method OverlayText(dc: Canvas, fr: Frame, bw: int, bh: int, size0: int, wrap: Wrap, fh: int -> real)
    requires ValidFrame(fr)
    modifies dc
    ensures dc.ops == old(dc.ops) + OverlayOps(fr, bw, bh, size0, wrap, fh)
  {
    var text := TrimSpace(fr.line.text);
    if text == [] {
      assert OverlayOps(fr, bw, bh, size0, wrap, fh) == [];
      return;
    }
    var a := AreaOf(fr);
    OverlayBlock(dc, fr.line, a, bw, bh, size0, wrap, fh);
  }

  /** The body of overlayTextOnImage past the empty-text check, for a line
      whose current area is `a`: the font is set to the recommended size,
      its height read, the text wrapped at the width of the first area and
      shrunk to fit, and the block drawn. */
  method OverlayBlock(dc: Canvas, line: TextLine, a: Area, bw: int, bh: int, size0: int, wrap: Wrap, fh: int -> real)
    requires |line.field| >= 1 && TrimSpace(line.text) != []
    modifies dc
    ensures dc.ops == old(dc.ops) + OverlayAt(line, a, bw, bh, size0, wrap, fh)
  {
    var text := TrimSpace(line.text);
    dc.SetFontFace(size0);
    var width := WrapWidth(line, bw);
    var fontHeight := fh(dc.size);
    var lines := ShrinkToFit(dc, text, width, wrap);
    assert lines == WrappedLines(line, bw, size0, wrap);
    DrawBlock(dc, lines, a, bw, bh, fontHeight, line.strokeColor, line.color);
    OverlayIsLayout(line, a, bw, bh, size0, wrap, fh);
  }

  // ---------------------------------------------------------------------
  // Pixels

  /** A frame's pixels over the whole canvas; `None` where the frame is
      transparent or outside its own bounds. */
  type Layer = seq<Option<int>>

  /** draw.Draw with draw.Over: the layer's opaque pixels replace those of
      `dst`. */
  function Over(dst: seq<int>, layer: Layer): (r: seq<int>)
    ensures |r| == |dst|
    ensures forall k :: 0 <= k < |dst| ==>
              r[k] == if k < |layer| && layer[k].Some? then layer[k].value else dst[k]
  {
    seq(|dst|, k requires 0 <= k < |dst| => if k < |layer| && layer[k].Some? then layer[k].value else dst[k])
  }

  function Opaque(pix: seq<int>): (r: Layer)
    ensures |r| == |pix| && forall k :: 0 <= k < |pix| ==> r[k] == Some(pix[k])
  {
    seq(|pix|, k requires 0 <= k < |pix| => Some(pix[k]))
  }

  function Uniform(p: nat, c: int): (r: seq<int>)
    ensures |r| == p && forall k :: 0 <= k < p ==> r[k] == c
  {
    seq(p, _ => c)
  }

  /** The only frame of a line scheduled over a single frame:
      newFrames(1, tl).frame(0). */
  function StillFrame(tl: TextLine): (fr: Frame)
    requires |tl.field| >= 1
    ensures ValidFrame(fr) && fr.line == tl
  {
    FrameAt(NewFrames(1, tl), 0)
  }

  /** Draw: every text line is placed through a one-frame scheduler, and the
      text image goes over the source image. */
  method Draw(src: seq<int>, m: Macro, bw: int, bh: int, size0: int, wrap: Wrap, fh: int -> real,
              render: seq<Stroke> -> Layer)
    returns (out: seq<int>, ghost ops: seq<Stroke>)
    requires forall k :: 0 <= k < |m.textOverlay| ==> |m.textOverlay[k].field| >= 1
    ensures out == Over(src, render(ops))
    ensures ops == DrawOps(m.textOverlay, bw, bh, size0, wrap, fh)
  {
    var tls := m.textOverlay;
    var dc := new Canvas();
    var k := 0;
    while k < |tls|
      invariant 0 <= k <= |tls|
      invariant dc.ops == DrawOps(tls[..k], bw, bh, size0, wrap, fh)
    {
      OverlayLine(dc, tls, k, bw, bh, size0, wrap, fh);
      k := k + 1;
    }
    assert tls[..k] == tls;
    ops := dc.ops;
    out := Over(src, render(dc.ops));
  }

  /** The strokes Draw makes for the lines `tls`. */
  function DrawOps(tls: seq<TextLine>, bw: int, bh: int, size0: int, wrap: Wrap, fh: int -> real): seq<Stroke>
    requires forall k :: 0 <= k < |tls| ==> |tls[k].field| >= 1
    decreases |tls|
  {
    if tls == [] then []
    else DrawOps(tls[..|tls| - 1], bw, bh, size0, wrap, fh) + OverlayOps(StillFrame(tls[|tls| - 1]), bw, bh, size0, wrap, fh)
  }

  lemma DrawOpsStep(tls: seq<TextLine>, k: nat, bw: int, bh: int, size0: int, wrap: Wrap, fh: int -> real)
    requires forall k :: 0 <= k < |tls| ==> |tls[k].field| >= 1
    requires k < |tls|
    ensures DrawOps(tls[..k + 1], bw, bh, size0, wrap, fh) ==
            DrawOps(tls[..k], bw, bh, size0, wrap, fh) + OverlayOps(StillFrame(tls[k]), bw, bh, size0, wrap, fh)
  {
    assert tls[..k + 1][..k] == tls[..k] && tls[..k + 1][k] == tls[k];
  }

  /** One step of Draw: line k is overlaid through its still frame. */
  method OverlayLine(dc: Canvas, tls: seq<TextLine>, k: nat, bw: int, bh: int, size0: int, wrap: Wrap, fh: int -> real)
    requires forall k :: 0 <= k < |tls| ==> |tls[k].field| >= 1
    requires k < |tls|
    requires dc.ops == DrawOps(tls[..k], bw, bh, size0, wrap, fh)
    modifies dc
    ensures dc.ops == DrawOps(tls[..k + 1], bw, bh, size0, wrap, fh)
  {
    OverlayText(dc, StillFrame(tls[k]), bw, bh, size0, wrap, fh);
    DrawOpsStep(tls, k, bw, bh, size0, wrap, fh);
  }

  /** In a still image a line sits at its first area, unmoved. */
  lemma SingleFrameFirstArea(tl: TextLine)
    requires |tl.field| >= 1
    ensures AreaOf(StillFrame(tl)) == tl.field[0]
  {
    var f := NewFrames(1, tl);
    assert f.framesPerArea == 1 by {
      assert (f.framesPerArea - 1) * |tl.field| < 1;
    }
  }

  // ---------------------------------------------------------------------
  // DrawGIF

  /** Disposal methods of the Graphic Control Extension (section 23 of the
      GIF89a specification), with the values of Go's image/gif. */
  const DisposalNone: int := 1
  const DisposalBackground: int := 2
  const DisposalPrevious: int := 3

  /** The backdrop of frame `i`, for frames `frames` with disposal methods
      `disposal`, `p` pixels and background palette index `bg`. */
  function Backdrop(frames: seq<Layer>, disposal: seq<int>, bg: int, p: nat, i: nat): (r: seq<int>)
    requires i < |frames| && i <= |disposal|
    ensures |r| == p
    decreases i
  {
    if i == 0 then Uniform(p, bg)
    else
      var d := disposal[i - 1];
      if d == DisposalBackground then Backdrop(frames, disposal, bg, p, 0)
      else if d == DisposalPrevious then Backdrop(frames, disposal, bg, p, i - 1)
      else if d == DisposalNone then Over(Backdrop(frames, disposal, bg, p, i - 1), frames[i - 1])
      else Backdrop(frames, disposal, bg, p, 0)
  }

  /** Every backdrop pixel is the background or the pixel some earlier
      frame drew there: the text overlay never reaches a later backdrop. */
  lemma {:induction false} BackdropProvenance(frames: seq<Layer>, disposal: seq<int>, bg: int, p: nat, i: nat, k: nat)
    requires i < |frames| && i <= |disposal| && k < p
    ensures Backdrop(frames, disposal, bg, p, i)[k] == bg ||
            exists j :: 0 <= j < i && k < |frames[j]| && frames[j][k] == Some(Backdrop(frames, disposal, bg, p, i)[k])
    decreases i
  {
    if i > 0 {
      var d := disposal[i - 1];
      if d == DisposalPrevious {
        BackdropProvenance(frames, disposal, bg, p, i - 1, k);
      } else if d == DisposalNone && d != DisposalBackground {
        BackdropProvenance(frames, disposal, bg, p, i - 1, k);
      }
    }
  }

  /** A pixel no earlier frame drew keeps the background colour. */
  lemma Unpainted(frames: seq<Layer>, disposal: seq<int>, bg: int, p: nat, i: nat, k: nat)
    requires i < |frames| && i <= |disposal| && k < p
    requires forall j :: 0 <= j < i ==> k >= |frames[j]| || frames[j][k].None?
    ensures Backdrop(frames, disposal, bg, p, i)[k] == bg
  {
    BackdropProvenance(frames, disposal, bg, p, i, k);
  }

  /** Frames after frames disposed with Previous share the backdrop of the
      first of them. */
  lemma {:induction false} PreviousChain(frames: seq<Layer>, disposal: seq<int>, bg: int, p: nat, a: nat, i: nat)
    requires a <= i < |frames| && i <= |disposal|
    requires forall j :: a <= j < i ==> disposal[j] == DisposalPrevious
    ensures Backdrop(frames, disposal, bg, p, i) == Backdrop(frames, disposal, bg, p, a)
    decreases i
  {
    if i > a {
      PreviousChain(frames, disposal, bg, p, a, i - 1);
    }
  }

  /** The frames `ls` painted in order over `base`. */
  function Stack(base: seq<int>, ls: seq<Layer>): (r: seq<int>)
    ensures |r| == |base|
    decreases |ls|
  {
    if ls == [] then base else Over(Stack(base, ls[..|ls| - 1]), ls[|ls| - 1])
  }

  /** When no frame is disposed, each backdrop is all earlier frames
      painted over the background. */
  lemma {:induction false} NoneAccumulates(frames: seq<Layer>, disposal: seq<int>, bg: int, p: nat, i: nat)
    requires i < |frames| && i <= |disposal|
    requires forall j :: 0 <= j < i ==> disposal[j] == DisposalNone
    ensures Backdrop(frames, disposal, bg, p, i) == Stack(Uniform(p, bg), frames[..i])
    decreases i
  {
    if i > 0 {
      NoneAccumulates(frames, disposal, bg, p, i - 1);
      assert frames[..i][..i - 1] == frames[..i - 1];
    }
  }

  /** With Background disposal or any value it does not recognise, every
      frame after the first starts from the uniform background. */
  lemma {:induction false} RestoredBackground(frames: seq<Layer>, disposal: seq<int>, bg: int, p: nat, i: nat)
    requires 0 < i < |frames| && i <= |disposal|
    requires disposal[i - 1] != DisposalNone && disposal[i - 1] != DisposalPrevious
    ensures Backdrop(frames, disposal, bg, p, i) == Uniform(p, bg)
  {
  }

  /** The strokes drawn on frame `i`: every line visible at `i`, in order. */
  function TextOps(lfs: seq<Frames>, i: nat, bw: int, bh: int, size0: int, wrap: Wrap, fh: int -> real): seq<Stroke>
    requires forall k :: 0 <= k < |lfs| ==> ValidFrames(lfs[k])
    decreases |lfs|
  {
    if lfs == [] then []
    else
      var f := lfs[|lfs| - 1];
      TextOps(lfs[..|lfs| - 1], i, bw, bh, size0, wrap, fh)
        + (if VisibleAt(f, i) then OverlayOps(FrameAt(f, i), bw, bh, size0, wrap, fh) else [])
  }

  /** A line not visible at frame `i` adds nothing to it. */
  lemma {:induction false} InvisibleAddsNothing(lfs: seq<Frames>, f: Frames, i: nat, bw: int, bh: int, size0: int, wrap: Wrap, fh: int -> real)
    requires forall k :: 0 <= k < |lfs| ==> ValidFrames(lfs[k])
    requires ValidFrames(f) && !VisibleAt(f, i)
    ensures TextOps(lfs + [f], i, bw, bh, size0, wrap, fh) == TextOps(lfs, i, bw, bh, size0, wrap, fh)
  {
    assert (lfs + [f])[..|lfs|] == lfs;
  }

  /** The line schedules of DrawGIF, one per text line. */
  function LineFrames(n: nat, lines: seq<TextLine>): (r: seq<Frames>)
    requires forall k :: 0 <= k < |lines| ==> |lines[k].field| >= 1
    ensures |r| == |lines| && forall k :: 0 <= k < |r| ==> r[k] == NewFrames(n, lines[k])
  {
    seq(|lines|, k requires 0 <= k < |lines| => NewFrames(n, lines[k]))
  }

  /** The first loop of DrawGIF: one schedule per text line over `n` frames. */
  method MakeLineFrames(n: nat, lines: seq<TextLine>) returns (lfs: seq<Frames>)
    requires forall k :: 0 <= k < |lines| ==> |lines[k].field| >= 1
    ensures lfs == LineFrames(n, lines)
  {
    lfs := [];
    var t := 0;
    while t < |lines|
      invariant 0 <= t <= |lines|
      invariant lfs == LineFrames(n, lines[..t])
    {
      lfs := lfs + [NewFrames(n, lines[t])];
      t := t + 1;
    }
    assert lines[..t] == lines;
  }

  /** The disposal switch of DrawGIF: given the first backdrop, this frame's
      backdrop and this frame drawn over it, the next frame's backdrop. */
  method NextBackdrop(ghost frames: seq<Layer>, ghost disposal: seq<int>, ghost bg: int, ghost p: nat, ghost i: nat,
                      d: int, first: seq<int>, prev: seq<int>, dst: seq<int>) returns (next: seq<int>)
    requires i + 1 < |frames| && i < |disposal| && d == disposal[i]
    requires first == Backdrop(frames, disposal, bg, p, 0)
    requires prev == Backdrop(frames, disposal, bg, p, i)
    requires dst == Over(prev, frames[i])
    ensures next == Backdrop(frames, disposal, bg, p, i + 1)
  {
    if d == DisposalBackground {
      // restore the background colour
      next := first;
    } else if d == DisposalPrevious {
      // discard what this frame drew
      next := prev;
    } else if d == DisposalNone {
      // keep this frame as the next backdrop
      next := dst;
    } else {
      next := first;
    }
  }

  /** The text overlay of frame `i` of DrawGIF: a fresh canvas with every
      line visible at `i` drawn on it. */
  method DrawText(lineFrames: seq<Frames>, i: nat, bw: int, bh: int, size0: int, wrap: Wrap, fh: int -> real)
    returns (dc: Canvas)
    requires forall k :: 0 <= k < |lineFrames| ==> ValidFrames(lineFrames[k])
    ensures fresh(dc)
    ensures dc.ops == TextOps(lineFrames, i, bw, bh, size0, wrap, fh)
  {
    dc := new Canvas();
    var k := 0;
    while k < |lineFrames|
      invariant 0 <= k <= |lineFrames|
      invariant dc.ops == TextOps(lineFrames[..k], i, bw, bh, size0, wrap, fh)
    {
      var f := lineFrames[k];
      if VisibleAt(f, i) {
        OverlayText(dc, FrameAt(f, i), bw, bh, size0, wrap, fh);
      }
      assert lineFrames[..k + 1][..k] == lineFrames[..k];
      k := k + 1;
    }
    assert lineFrames[..k] == lineFrames;
  }

  /** Frame `i` as DrawGIF leaves it: its backdrop, with the frame drawn
      over it, with the visible text drawn over that, all opaque. */
  function GifFrame(frames: seq<Layer>, disposal: seq<int>, bg: int, p: nat, lfs: seq<Frames>, i: nat,
                    bw: int, bh: int, size0: int, wrap: Wrap, fh: int -> real,
                    render: (nat, seq<Stroke>) -> Layer): Layer
    requires i < |frames| && i <= |disposal|
    requires forall k :: 0 <= k < |lfs| ==> ValidFrames(lfs[k])
  {
    Opaque(Over(Over(Backdrop(frames, disposal, bg, p, i), frames[i]), render(i, TextOps(lfs, i, bw, bh, size0, wrap, fh))))
  }

  /** DrawGIF, run frame by frame; the next backdrop is taken before the
      text is drawn. `bg` is the palette index of the background colour and
      `p` the number of pixels; `render(i, ops)` rasterises strokes into
      frame `i`'s palette. */
  method DrawGIF(img: array<Layer>, disposal: seq<int>, bg: int, p: nat, m: Macro,
                 bw: int, bh: int, size0: int, wrap: Wrap, fh: int -> real,
                 render: (nat, seq<Stroke>) -> Layer)
    requires img.Length >= 1 && |disposal| >= img.Length - 1
    requires forall k :: 0 <= k < |m.textOverlay| ==> |m.textOverlay[k].field| >= 1
    modifies img
    ensures forall i :: 0 <= i < img.Length ==>
              img[i] == GifFrame(old(img[..]), disposal, bg, p, LineFrames(img.Length, m.textOverlay), i,
                                 bw, bh, size0, wrap, fh, render)
  {
    var lineFrames := MakeLineFrames(img.Length, m.textOverlay);
    ghost var frames := img[..];
    ghost var want := seq(img.Length, j requires 0 <= j < img.Length =>
                          GifFrame(frames, disposal, bg, p, lineFrames, j, bw, bh, size0, wrap, fh, render));
    ComposeFrames(img, disposal, bg, p, lineFrames, bw, bh, size0, wrap, fh, render, want);
  }

  /** The second loop of DrawGIF: every frame composed over its backdrop
      with the text of the lines visible in it. */
  method ComposeFrames(img: array<Layer>, disposal: seq<int>, bg: int, p: nat, lineFrames: seq<Frames>,
                       bw: int, bh: int, size0: int, wrap: Wrap, fh: int -> real,
                       render: (nat, seq<Stroke>) -> Layer, ghost want: seq<Layer>)
    requires img.Length >= 1 && |disposal| >= img.Length - 1
    requires forall k :: 0 <= k < |lineFrames| ==> ValidFrames(lineFrames[k])
    requires |want| == img.Length
    requires forall j :: 0 <= j < img.Length ==>
               want[j] == GifFrame(img[..], disposal, bg, p, lineFrames, j, bw, bh, size0, wrap, fh, render)
    modifies img
    ensures img[..] == want
  {
    var n := img.Length;
    // Frame i is read before it is overwritten and no later frame is
    // written first, so the frames can be read from their state on entry.
    var frames := img[..];
    var backdrops := new seq<int>[n];
    backdrops[0] := Uniform(p, bg);
    var i := 0;
    while i < n
      invariant 0 <= i <= n
      invariant backdrops[0] == Uniform(p, bg)
      invariant i < n ==> backdrops[i] == Backdrop(frames, disposal, bg, p, i)
      invariant img[..i] == want[..i]
    {
      var next, out := ComposeFrame(frames, disposal, bg, p, i, n, frames[i], backdrops[0], backdrops[i],
                                    lineFrames, bw, bh, size0, wrap, fh, render);
      if i != n - 1 {
        backdrops[i + 1] := next;
      }
      ghost var before := img[..];
      img[i] := out;
      assert img[..i + 1] == before[..i] + [out];
      i := i + 1;
    }
    assert img[..] == img[..n];
  }

  /** One frame of DrawGIF: the frame drawn over its backdrop, the next
      backdrop taken from that unless the frame is the last, then the text
      drawn over it. */
  method ComposeFrame(ghost frames: seq<Layer>, disposal: seq<int>, ghost bg: int, ghost p: nat, i: nat, n: nat,
                      frame: Layer, first: seq<int>, prev: seq<int>,
                      lineFrames: seq<Frames>, bw: int, bh: int, size0: int, wrap: Wrap, fh: int -> real,
                      render: (nat, seq<Stroke>) -> Layer)
    returns (next: seq<int>, out: Layer)
    requires n == |frames| && i < n && |disposal| >= n - 1
    requires forall k :: 0 <= k < |lineFrames| ==> ValidFrames(lineFrames[k])
    requires frame == frames[i]
    requires first == Backdrop(frames, disposal, bg, p, 0) && prev == Backdrop(frames, disposal, bg, p, i)
    ensures i + 1 < |frames| ==> next == Backdrop(frames, disposal, bg, p, i + 1)
    ensures out == GifFrame(frames, disposal, bg, p, lineFrames, i, bw, bh, size0, wrap, fh, render)
  {
    var dst := Over(prev, frame);
    next := prev;
    if i != n - 1 {
      next := NextBackdrop(frames, disposal, bg, p, i, disposal[i], first, prev, dst);
    }
    out := TextOver(frames, disposal, bg, p, dst, lineFrames, i, bw, bh, size0, wrap, fh, render);
  }

  /** The text of frame `i` drawn over `dst`, the frame drawn over its
      backdrop, and the result made opaque. */
  method TextOver(ghost frames: seq<Layer>, ghost disposal: seq<int>, ghost bg: int, ghost p: nat,
                  dst: seq<int>, lineFrames: seq<Frames>, i: nat, bw: int, bh: int, size0: int, wrap: Wrap, fh: int -> real,
                  render: (nat, seq<Stroke>) -> Layer)
    returns (out: Layer)
    requires i < |frames| && i <= |disposal|
    requires forall k :: 0 <= k < |lineFrames| ==> ValidFrames(lineFrames[k])
    requires dst == Over(Backdrop(frames, disposal, bg, p, i), frames[i])
    ensures out == GifFrame(frames, disposal, bg, p, lineFrames, i, bw, bh, size0, wrap, fh, render)
  {
    var dc := DrawText(lineFrames, i, bw, bh, size0, wrap, fh);
    var text := render(i, dc.ops);
    out := Opaque(Over(dst, text));
  }
}
