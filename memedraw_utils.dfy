/** The frame scheduler of the meme renderer: for one text line over an
    animation of `frameCount` frames, which area the line occupies at each
    frame, whether it is visible there, and where a tweened line sits
    between two areas; plus the bounding box of all frames and the colour
    palette built from a histogram of quantised colours. */
module MemedrawUtils {
  import opened Tmemes
  import Sorting

  /** The least integer not below `x` (math.Ceil followed by int()). */
  function Ceil(x: real): (r: int)
    ensures x <= r as real < x + 1.0
  {
    -((-x).Floor)
  }

  /** ceil(a / b) for a non-negative `a` and a positive `b`. */
  function CeilDiv(a: nat, b: nat): (q: nat)
    requires b > 0
    ensures q * b >= a && (q - 1) * b < a
  {
    var q := (a + b - 1) / b;
    assert (a + b - 1) == q * b + (a + b - 1) % b;
    q
  }

  /** A text line prepared for an animation: frames per area and the first
      and last visible frame index. */
  datatype Frames = Frames(line: TextLine, framesPerArea: nat, start: int, end: int)

  /** newFrames. The Go code divides by the number of areas, so a line
      needs at least one area. */
  function NewFrames(frameCount: nat, line: TextLine): (f: Frames)
    requires |line.field| >= 1
    ensures f.line == line
    ensures frameCount >= 1 ==> f.framesPerArea >= 1
    ensures f.framesPerArea * |line.field| >= frameCount
    ensures (f.framesPerArea - 1) * |line.field| < frameCount || frameCount == 0
    ensures line.start > 0.0 ==> line.start * frameCount as real <= f.start as real < line.start * frameCount as real + 1.0
    ensures line.start <= 0.0 ==> f.start == 0
    ensures line.end > line.start ==> line.end * frameCount as real <= f.end as real < line.end * frameCount as real + 1.0
    ensures line.end <= line.start ==> f.end == frameCount
  {
    var na := |line.field|;
    var fpa := CeilDiv(frameCount, na);
    var start := if line.start > 0.0 then Ceil(line.start * frameCount as real) else 0;
    var end := if line.end > line.start then Ceil(line.end * frameCount as real) else frameCount;
    Frames(line, fpa, start, end)
  }

  predicate ValidFrames(f: Frames) {
    |f.line.field| >= 1 && (|f.line.field| == 1 || f.framesPerArea >= 1)
  }

  /** frames.visibleAt. */
  predicate VisibleAt(f: Frames, i: int) {
    f.start <= i <= f.end
  }

  /** The view of a line at one frame: the active area `pos`, the frame
      index `i` and the frames per area `fpa`. */
  datatype Frame = Frame(line: TextLine, pos: nat, i: nat, fpa: nat)

  predicate ValidFrame(fr: Frame) {
    fr.pos < |fr.line.field| && fr.fpa >= 1
  }

  /** frames.frame. */
  function FrameAt(f: Frames, i: nat): (fr: Frame)
    requires ValidFrames(f)
    ensures ValidFrame(fr) && fr.line == f.line
    ensures |f.line.field| == 1 ==> fr.pos == 0 && fr.i == 0 && fr.fpa == 1
    ensures |f.line.field| > 1 ==> fr.pos == (i / f.framesPerArea) % |f.line.field| && fr.i == i && fr.fpa == f.framesPerArea
  {
    if |f.line.field| == 1 then Frame(f.line, 0, 0, 1)
    else Frame(f.line, (i / f.framesPerArea) % |f.line.field|, i, f.framesPerArea)
  }

  /** The area after `pos`, cyclically, whose anchor a tweened line moves
      toward. */
  function NextPos(fr: Frame): (npos: nat)
    requires ValidFrame(fr)
    ensures npos < |fr.line.field|
  {
    ((fr.i + fr.fpa) / fr.fpa) % |fr.line.field|
  }

  /** frame.area: the active area, moved `rem/fpa` of the way toward the
      next area when the area is tweened and the frame is not the first of
      its band. */
  function AreaOf(fr: Frame): (a: Area)
    requires ValidFrame(fr)
    ensures a.width == fr.line.field[fr.pos].width && a.tween == fr.line.field[fr.pos].tween
  {
    var cur := fr.line.field[fr.pos];
    if !cur.tween then cur
    else
      var rem := fr.i % fr.fpa;
      if rem != 0 then
        var next := fr.line.field[NextPos(fr)];
        var dx := (next.x - cur.x) / fr.fpa as real;
        var dy := (next.y - cur.y) / fr.fpa as real;
        cur.(x := cur.x + rem as real * dx, y := cur.y + rem as real * dy)
      else cur
  }

  // ---------------------------------------------------------------------
  // Properties of the scheduler

  /** With one area, every frame shows that area exactly. */
  lemma SingleArea(frameCount: nat, line: TextLine, i: nat)
    requires |line.field| == 1
    ensures ValidFrames(NewFrames(frameCount, line))
    ensures AreaOf(FrameAt(NewFrames(frameCount, line), i)) == line.field[0]
  {
  }

  /** Frames per area is the exact ceiling of frames over areas. */
  lemma FramesPerAreaBounds(frameCount: nat, line: TextLine)
    requires |line.field| >= 1 && frameCount >= 1
    ensures var fpa := NewFrames(frameCount, line).framesPerArea;
            fpa >= 1 && fpa * |line.field| >= frameCount && (fpa - 1) * |line.field| < frameCount
    ensures ValidFrames(NewFrames(frameCount, line))
  {
  }

  /** Frame `b*fpa + k` of band `b` (with `k < fpa`) shows area `b mod na`:
      each area holds for `fpa` consecutive frames, cyclically. */
  lemma BandPosition(f: Frames, b: nat, k: nat)
    requires ValidFrames(f) && |f.line.field| > 1 && k < f.framesPerArea
    ensures FrameAt(f, b * f.framesPerArea + k).pos == b % |f.line.field|
  {
    DivBand(b, k, f.framesPerArea);
  }

  lemma DivBand(b: nat, k: nat, n: nat)
    requires k < n
    ensures (b * n + k) / n == b && (b * n + k) % n == k
  {
    var x := b * n + k;
    var q, r := x / n, x % n;
    assert (q - b) * n == k - r;
    MulSmall(q - b, n);
  }

  /** A multiple of `n` strictly between `-n` and `n` is zero. */
  lemma MulSmall(d: int, n: int)
    requires n > 0 && -n < d * n < n
    ensures d == 0
  {
    if d > 0 {
      MulAtLeast(d, n);
    } else if d < 0 {
      assert false;
    }
  }

  lemma {:induction false} MulAtLeast(a: nat, n: nat)
    requires a >= 1
    ensures a * n >= n
    decreases a
  {
    if a > 1 {
      MulAtLeast(a - 1, n);
      assert a * n == (a - 1) * n + n;
    }
  }

  /** With 8 frames and 2 areas, frames 0 to 3 show the first area and
      frames 4 to 7 the second. */
  lemma EightFramesTwoAreas(line: TextLine, i: nat)
    requires |line.field| == 2 && i < 8
    ensures NewFrames(8, line).framesPerArea == 4
    ensures FrameAt(NewFrames(8, line), i).pos == if i < 4 then 0 else 1
  {
    var f := NewFrames(8, line);
    assert f.framesPerArea == 4;
    if i < 4 {
      BandPosition(f, 0, i);
    } else {
      BandPosition(f, 1, i - 4);
    }
  }

  /** Visibility in terms of the line's fractions: from the first frame at
      or after `start * frameCount`, to the first frame at or after
      `end * frameCount` when `end > start`, and to the last frame index
      `frameCount` otherwise. */
  lemma VisibleWindow(frameCount: nat, line: TextLine, i: int)
    requires |line.field| >= 1
    ensures VisibleAt(NewFrames(frameCount, line), i) <==>
              (line.start > 0.0 ==> i as real >= line.start * frameCount as real) &&
              (line.start <= 0.0 ==> i >= 0) &&
              (line.end > line.start ==> (i - 1) as real < line.end * frameCount as real) &&
              (line.end <= line.start ==> i <= frameCount)
  {
  }

  /** With `Start = End = 0` every frame is visible. */
  lemma AlwaysVisible(frameCount: nat, line: TextLine, i: int)
    requires |line.field| >= 1 && line.start == 0.0 && line.end == 0.0
    requires 0 <= i <= frameCount
    ensures NewFrames(frameCount, line).start == 0 && NewFrames(frameCount, line).end == frameCount
    ensures VisibleAt(NewFrames(frameCount, line), i)
  {
  }

  /** A fixed area, and a tweened one at the first frame of its band, is
      drawn exactly where it is given. */
  lemma NoInterpolationAtBoundary(fr: Frame)
    requires ValidFrame(fr)
    requires !fr.line.field[fr.pos].tween || fr.i % fr.fpa == 0
    ensures AreaOf(fr) == fr.line.field[fr.pos]
  {
  }

  /** The tween target is the area after the current one, cyclically. */
  lemma NextIsFollowingArea(f: Frames, i: nat)
    requires ValidFrames(f) && |f.line.field| > 1
    ensures NextPos(FrameAt(f, i)) == (FrameAt(f, i).pos + 1) % |f.line.field|
  {
    var fpa, na := f.framesPerArea, |f.line.field|;
    var q, rem := i / fpa, i % fpa;
    DivBand(q + 1, rem, fpa);
    assert i + fpa == (q + 1) * fpa + rem;
    ModSucc(q, na);
  }

  lemma ModSucc(q: nat, n: nat)
    requires n > 0
    ensures (q + 1) % n == (q % n + 1) % n
  {
    var a, r := q / n, q % n;
    assert q + 1 == a * n + (r + 1);
    if r + 1 < n {
      DivBand(a, r + 1, n);
      DivBand(0, r + 1, n);
    } else {
      MulSucc(a, n);
      DivBand(a + 1, 0, n);
      DivBand(1, 0, n);
    }
  }

  lemma MulSucc(a: nat, n: nat)
    ensures (a + 1) * n == a * n + n
  {
  }

  /** A tweened line at offset `rem` of its band sits `rem/fpa` of the way
      from the current anchor to the next one. */
  lemma TweenOnSegment(fr: Frame)
    requires ValidFrame(fr) && fr.line.field[fr.pos].tween && fr.i % fr.fpa != 0
    ensures var cur, next := fr.line.field[fr.pos], fr.line.field[NextPos(fr)];
            var t := (fr.i % fr.fpa) as real / fr.fpa as real;
            0.0 < t < 1.0 &&
            AreaOf(fr).x == cur.x + t * (next.x - cur.x) &&
            AreaOf(fr).y == cur.y + t * (next.y - cur.y)
  {
    var cur, next := fr.line.field[fr.pos], fr.line.field[NextPos(fr)];
    var rem, n := (fr.i % fr.fpa) as real, fr.fpa as real;
    assert rem * ((next.x - cur.x) / n) == (rem / n) * (next.x - cur.x);
    assert rem * ((next.y - cur.y) / n) == (rem / n) * (next.y - cur.y);
  }

  // ---------------------------------------------------------------------
  // imageBounds

  /** image.Rectangle: Min = (x0, y0), Max = (x1, y1). */
  datatype Rect = Rect(x0: int, y0: int, x1: int, y1: int)

  predicate Empty(r: Rect) { r.x0 >= r.x1 || r.y0 >= r.y1 }

  function Min(a: int, b: int): int { if a <= b then a else b }
  function Max(a: int, b: int): int { if a >= b then a else b }

  /** Rectangle.Union: an empty rectangle contributes nothing. */
  function Union(r: Rect, s: Rect): Rect {
    if Empty(r) then s
    else if Empty(s) then r
    else Rect(Min(r.x0, s.x0), Min(r.y0, s.y0), Max(r.x1, s.x1), Max(r.y1, s.y1))
  }

  /** The union of the frame bounds in order, from the zero rectangle. */
  function UnionAll(rs: seq<Rect>): Rect
    decreases |rs|
  {
    if |rs| == 0 then Rect(0, 0, 0, 0) else Union(UnionAll(rs[..|rs| - 1]), rs[|rs| - 1])
  }

  /** `r.Sub(r.Min)`: the same size, moved to the origin. */
  function Normalize(r: Rect): (n: Rect)
    ensures n.x0 == 0 && n.y0 == 0
    ensures n.x1 - n.x0 == r.x1 - r.x0 && n.y1 - n.y0 == r.y1 - r.y0
  {
    Rect(0, 0, r.x1 - r.x0, r.y1 - r.y0)
  }

  predicate Contains(outer: Rect, inner: Rect) {
    outer.x0 <= inner.x0 && outer.y0 <= inner.y0 && inner.x1 <= outer.x1 && inner.y1 <= outer.y1
  }

  /** imageBounds over the bounds of the frames. */
  method ImageBounds(frames: seq<Rect>) returns (b: Rect)
    ensures b == Normalize(UnionAll(frames))
  {
    b := Rect(0, 0, 0, 0);
    var i := 0;
    while i < |frames|
      invariant i <= |frames|
      invariant b == UnionAll(frames[..i])
    {
      assert frames[..i + 1][..i] == frames[..i];
      b := Union(b, frames[i]);
      i := i + 1;
    }
    assert frames[..|frames|] == frames;
    b := Normalize(b);
  }

  /** The union contains every non-empty frame, is non-empty when some frame
      is, and lies inside every rectangle that contains all non-empty
      frames. */
  lemma {:induction false} UnionAllBounds(rs: seq<Rect>, outer: Rect)
    ensures (forall i :: 0 <= i < |rs| ==> Empty(rs[i])) ==> Empty(UnionAll(rs))
    ensures forall i :: 0 <= i < |rs| && !Empty(rs[i]) ==> Contains(UnionAll(rs), rs[i])
    ensures (exists i :: 0 <= i < |rs| && !Empty(rs[i])) ==> !Empty(UnionAll(rs))
    ensures (exists i :: 0 <= i < |rs| && !Empty(rs[i])) &&
            (forall i :: 0 <= i < |rs| && !Empty(rs[i]) ==> Contains(outer, rs[i])) ==>
              Contains(outer, UnionAll(rs))
    decreases |rs|
  {
    if |rs| > 0 {
      var front, last := rs[..|rs| - 1], rs[|rs| - 1];
      UnionAllBounds(front, outer);
      assert forall i :: 0 <= i < |front| ==> front[i] == rs[i];
      if (exists i :: 0 <= i < |rs| && !Empty(rs[i])) &&
         (forall i :: 0 <= i < |rs| && !Empty(rs[i]) ==> Contains(outer, rs[i])) {
        if exists i :: 0 <= i < |front| && !Empty(front[i]) {
          assert Contains(outer, UnionAll(front));
          if !Empty(last) {
            assert Contains(outer, last);
          }
        } else {
          assert !Empty(last);
          assert Contains(outer, last);
        }
      }
    }
  }

  // ---------------------------------------------------------------------
  // makeColorPalette

  /** All quantised colours of all images, in order. */
  function Flatten<C>(q: seq<seq<C>>): seq<C>
    decreases |q|
  {
    if |q| == 0 then [] else Flatten(q[..|q| - 1]) + q[|q| - 1]
  }

  /** How often `c` was produced by the quantiser over all images. */
  function Count<C(==)>(q: seq<seq<C>>, c: C): nat {
    multiset(Flatten(q))[c]
  }

  /** No element occurs twice. */
  ghost predicate Distinct<C(!new)>(s: seq<C>) {
    forall x :: multiset(s)[x] <= 1
  }

  lemma DistinctAt<C(!new)>(s: seq<C>, i: nat, j: nat)
    requires Distinct(s) && i < j < |s|
    ensures s[i] != s[j]
  {
    assert s == s[..j] + s[j..];
    assert multiset(s) == multiset(s[..j]) + multiset(s[j..]);
    assert s[i] in multiset(s[..j]) && s[j] in multiset(s[j..]);
    assert multiset(s)[s[i]] == multiset(s[..j])[s[i]] + multiset(s[j..])[s[i]];
    assert multiset(s[..j])[s[i]] >= 1 && multiset(s[j..])[s[j]] >= 1;
    if s[i] == s[j] {
      assert false;
    }

  }

  /** The histogram loop of makeColorPalette. */
  method Histogram<C(==)>(q: seq<seq<C>>) returns (m: map<C, nat>)
    ensures forall c :: (c in m <==> Count(q, c) > 0) && (c in m ==> m[c] == Count(q, c))
  {
    m := map[];
    var i := 0;
    while i < |q|
      invariant i <= |q|
      invariant forall c :: (c in m <==> Count(q[..i], c) > 0) && (c in m ==> m[c] == Count(q[..i], c))
    {
      var j := 0;
      while j < |q[i]|
        invariant j <= |q[i]|
        invariant forall c :: var n := multiset(Flatten(q[..i]) + q[i][..j])[c];
                    (c in m <==> n > 0) && (c in m ==> m[c] == n)
      {
        var c := q[i][j];
        assert Flatten(q[..i]) + q[i][..j + 1] == (Flatten(q[..i]) + q[i][..j]) + [c];
        m := m[c := (if c in m then m[c] else 0) + 1];
        j := j + 1;
      }
      assert q[..i + 1][..i] == q[..i];
      assert q[i][..j] == q[i];
      assert Flatten(q[..i + 1]) == Flatten(q[..i]) + q[i];
      i := i + 1;
    }
    assert q[..|q|] == q;
  }

  /** maps.Keys: the keys of `m`, each once, in an unspecified order. */
  method Keys<C(==,!new), V>(m: map<C, V>) returns (keys: seq<C>)
    ensures forall c :: c in m <==> c in keys
    ensures Distinct(keys)
  {
    keys := [];
    var rest := m.Keys;
    while rest != {}
      invariant rest <= m.Keys
      invariant forall c :: c in m ==> (c in keys <==> c !in rest)
      invariant forall c :: c in keys ==> c in m
      invariant Distinct(keys)
      decreases rest
    {
      var c :| c in rest;
      keys := keys + [c];
      rest := rest - {c};
    }
  }

  /** The first `n` elements of a distinct sequence are distinct. */
  lemma DistinctPrefix<C(!new)>(s: seq<C>, n: nat)
    requires Distinct(s) && n <= |s|
    ensures Distinct(s[..n])
  {
    assert s == s[..n] + s[n..];
    assert multiset(s) == multiset(s[..n]) + multiset(s[n..]);
    forall x ensures multiset(s[..n])[x] <= 1 {
      assert multiset(s)[x] == multiset(s[..n])[x] + multiset(s[n..])[x];
    }
  }

  /** The first 256 elements of a sorted sequence are sorted, and each is
      at least every element cut off. */
  lemma TruncatedTop<T>(sorted: seq<T>, key: T -> Sorting.Key, ps: seq<T>)
    requires Sorting.SortedDesc(sorted, key)
    requires ps == if |sorted| > 256 then sorted[..256] else sorted
    ensures forall k, l :: 0 <= k < l < |ps| ==> Sorting.KeyGe(key(ps[k]), key(ps[l]))
    ensures forall l :: |ps| <= l < |sorted| ==>
              |ps| == 256 && forall k :: 0 <= k < |ps| ==> Sorting.KeyGe(key(ps[k]), key(sorted[l]))
  {
    assert forall k :: 0 <= k < |ps| ==> ps[k] == sorted[k];
  }

  /** A palette cut from a sorted list of all the colours that occur. */
  lemma PaletteFacts<C(!new)>(q: seq<seq<C>>, keys: seq<C>, key: C -> Sorting.Key, sorted: seq<C>, ps: seq<C>)
    requires forall c :: c in keys <==> Count(q, c) > 0
    requires Distinct(keys)
    requires forall c :: key(c).major == Count(q, c)
    requires multiset(sorted) == multiset(keys) && Sorting.SortedDesc(sorted, key)
    requires ps == if |sorted| > 256 then sorted[..256] else sorted
    ensures Distinct(ps)
    ensures forall i :: 0 <= i < |ps| ==> Count(q, ps[i]) > 0
    ensures forall i, j :: 0 <= i < j < |ps| ==> Count(q, ps[i]) >= Count(q, ps[j])
    ensures forall c :: Count(q, c) > 0 && c !in ps ==>
              |ps| == 256 && forall i :: 0 <= i < |ps| ==> Count(q, c) <= Count(q, ps[i])
  {
    forall c ensures c in keys <==> c in sorted {
      assert c in keys <==> c in multiset(keys);
      assert c in sorted <==> c in multiset(sorted);
    }
    TruncatedTop(sorted, key, ps);
    DistinctPrefix(sorted, |ps|);
    assert sorted[..|ps|] == ps;
    forall i | 0 <= i < |ps| ensures Count(q, ps[i]) > 0 {
      assert ps[i] == sorted[i];
    }
    forall c | Count(q, c) > 0 && c !in ps
      ensures |ps| == 256 && forall k :: 0 <= k < |ps| ==> Count(q, c) <= Count(q, ps[k])
    {
      var l :| 0 <= l < |sorted| && sorted[l] == c;
      assert forall k :: 0 <= k < |ps| ==> ps[k] == sorted[k];
      if l < |ps| {
        assert false;
      }
      forall k | 0 <= k < |ps| ensures Count(q, c) <= Count(q, ps[k]) {
        assert Sorting.KeyGe(key(ps[k]), key(sorted[l]));
      }
    }
  }

  /** makeColorPalette, given the quantiser's output for each image: the
      distinct colours by non-increasing frequency, cut to 256. */
  method MakeColorPalette<C(==,!new)>(q: seq<seq<C>>) returns (ps: seq<C>)
    ensures |ps| <= 256
    ensures Distinct(ps)
    ensures forall i :: 0 <= i < |ps| ==> Count(q, ps[i]) > 0
    ensures forall i, j :: 0 <= i < j < |ps| ==> Count(q, ps[i]) >= Count(q, ps[j])
    // a colour left out is no more frequent than any colour kept, and only
    // the cut to 256 leaves colours out
    ensures forall c :: Count(q, c) > 0 && c !in ps ==>
              |ps| == 256 && forall i :: 0 <= i < |ps| ==> Count(q, c) <= Count(q, ps[i])
  {
    var m := Histogram(q);
    var keys := Keys(m);
    var key := (c: C) => Sorting.Key(if c in m then m[c] else 0, 0);
    var sorted := Sorting.Sort(keys, key);
    ps := if |sorted| > 256 then sorted[..256] else sorted;
    PaletteFacts(q, keys, key, sorted, ps);
  }
}
