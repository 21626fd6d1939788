/** `check_pixel`: whether the ink component through a pixel belongs to
    the character whose window is being tightened. Two rules exist: the
    windowed rule of textutils.py, One/main.py and GenerDat/textutil.py,
    which also looks at the piece of the component cut out by the window,
    and the clipped rule of textutil.py. */
module Classify {
  import opened Raster
  import opened Components

  datatype Rule = Windowed | Clipped

  datatype Axis = X | Y

  function Coord(p: Pixel, axis: Axis): int
  {
    if axis == X then p.0 else p.1
  }

  predicate Hits(ps: set<Pixel>, axis: Axis, v: int)
  {
    exists p :: p in ps && Coord(p, axis) == v
  }

  predicate Between(ps: set<Pixel>, axis: Axis, lo: int, hi: int)
  {
    forall p :: p in ps ==> lo <= Coord(p, axis) <= hi
  }

  /** `min(xs)` of the pixels, found by scanning the window from `lo`. */
  function LowEnd(ps: set<Pixel>, axis: Axis, lo: int, hi: int): (r: int)
    requires ps != {} && Between(ps, axis, lo, hi)
    ensures lo <= r <= hi && Hits(ps, axis, r)
    ensures forall p :: p in ps ==> r <= Coord(p, axis)
    decreases hi - lo
  {
    if Hits(ps, axis, lo) then lo
    else LowEnd(ps, axis, lo + 1, hi)
  }

  /** `max(xs)` of the pixels, found by scanning the window from `hi`. */
  function HighEnd(ps: set<Pixel>, axis: Axis, lo: int, hi: int): (r: int)
    requires ps != {} && Between(ps, axis, lo, hi)
    ensures lo <= r <= hi && Hits(ps, axis, r)
    ensures forall p :: p in ps ==> Coord(p, axis) <= r
    decreases hi - lo
  {
    if Hits(ps, axis, hi) then hi
    else HighEnd(ps, axis, lo, hi - 1)
  }

  /** `max(xs) + 1 - min(xs)`: the extent of the pixels along an axis. */
  function Extent(ps: set<Pixel>, axis: Axis, lo: int, hi: int): (r: int)
    requires ps != {} && Between(ps, axis, lo, hi)
    ensures 1 <= r <= hi - lo + 1
    ensures exists p, q :: p in ps && q in ps && Coord(q, axis) - Coord(p, axis) + 1 == r
    ensures forall p, q :: p in ps && q in ps ==> Coord(q, axis) - Coord(p, axis) + 1 <= r
  {
    HighEnd(ps, axis, lo, hi) + 1 - LowEnd(ps, axis, lo, hi)
  }

  /** Python's tuple comparison `(a0, a1) < (b0, b1)`. */
  predicate LexLess(a: (int, int), b: (int, int))
  {
    a.0 < b.0 || (a.0 == b.0 && a.1 < b.1)
  }

  /** `ns / (ns + ni) > 0.1`, taken over exact rationals. */
  predicate RatioAbove(ns: nat, ni: nat)
    requires ns + ni > 0
  {
    (ns as real) / ((ns + ni) as real) > 0.1
  }

  /** The share test is an integer test: more than a tenth of the pair
      exactly when the window holds more than a ninth of the component. */
  lemma RatioTest(ns: nat, ni: nat)
    requires ns + ni > 0
    ensures RatioAbove(ns, ni) <==> 9 * ns > ni
  {
    var x, y := ns as real, ni as real;
    var d := (ns + ni) as real;
    var q := x / d;
    DivTimes(x, d);
    assert d == x + y;
    assert 0.1 * d == 0.1 * x + 0.1 * y;
    assert (9 * ns) as real == 9.0 * x;
    if q > 0.1 {
      ProductSign(q - 0.1, d);
      assert (q - 0.1) * d == x - 0.1 * d;
      assert 9.0 * x > y;
    } else {
      ProductSign(0.1 - q, d);
      assert (0.1 - q) * d == 0.1 * d - x;
      assert 9.0 * x <= y;
    }
  }

  lemma DivTimes(a: real, d: real)
    requires d > 0.0
    ensures (a / d) * d == a
  {
  }

  lemma ProductSign(e: real, d: real)
    requires d > 0.0
    ensures e > 0.0 ==> e * d > 0.0
    ensures e >= 0.0 ==> e * d >= 0.0
  {
  }

  /** The counts and extents `check_pixel` decides on. */
  datatype Stats = Stats(ns: nat, ni: nat, nsmol: nat, shape: (int, int), smolShape: (int, int))

  /** The decision of `check_pixel` once the counts are known. */
  function Verdict(rule: Rule, st: Stats): bool
    requires st.ni >= 1
  {
    match rule
    case Windowed =>
      if st.ni - st.ns < 3 then true
      else if st.nsmol < 4 || LexLess(st.smolShape, (4, 4)) || LexLess(st.shape, (4, 4)) then false
      else RatioAbove(st.ns, st.ni) || st.ns > 15
    case Clipped =>
      if st.ns + 2 >= st.ni then true
      else if st.shape.0 < 2 || st.shape.1 < 2 then false
      else RatioAbove(st.ns, st.ni) || st.ns > 15
  }

  /** The smallness test of the rule: the windowed piece has fewer than
      four pixels or either shape is below `(4, 4)` as a tuple under the
      windowed rule; the clipped extent is below 2 on either axis under the
      clipped rule. */
  predicate Small(rule: Rule, st: Stats)
  {
    match rule
    case Windowed => st.nsmol < 4 || LexLess(st.smolShape, (4, 4)) || LexLess(st.shape, (4, 4))
    case Clipped => st.shape.0 < 2 || st.shape.1 < 2
  }

  /** The verdict in integers: a component is kept when the window holds all
      but at most two of its pixels, or when the piece is not too small and
      holds more than 15 pixels or more than a ninth of the component. */
  lemma VerdictInIntegers(rule: Rule, st: Stats)
    requires st.ni >= 1
    ensures Verdict(rule, st) <==> st.ns + 2 >= st.ni || (!Small(rule, st) && (9 * st.ns > st.ni || st.ns > 15))
  {
    RatioTest(st.ns, st.ni);
  }

  /** The windowed rule's smallness test compares shapes as tuples, so a
      piece one pixel high but five wide is not small. */
  lemma FlatPieceIsNotSmall()
    ensures !LexLess((5, 1), (4, 4)) && LexLess((3, 9), (4, 4))
  {
  }

  /** The pixels of the component through `p` that lie in the window. */
  function Seg(comp: set<Pixel>, b: Box): (r: set<Pixel>)
    ensures forall q :: q in r <==> q in comp && InBox(b, q)
  {
    set q | q in comp && InBox(b, q)
  }

  /** The counts and extents `check_pixel` computes for the ink pixel `p`
      of the window: `ns` and `ni` count the component clipped to the window
      and the whole component, `nsmol` the piece of the window's ink
      connected to `p`; the shapes are the extents of the clipped component
      and of the piece. */
  function PixelStats(conn: Connectivity, img: Image, b: Box, p: Pixel): (st: Stats)
    requires Valid(img) && p in img.ink && InBox(b, p)
    ensures st.ns == |Seg(Component(conn, img.ink, p), b)| && st.ni == |Component(conn, img.ink, p)| >= 1
  {
    var imgPixels := Component(conn, img.ink, p);
    var seg := Seg(imgPixels, b);
    var smol := Component(Eight, BoxInk(img, b), p);
    Stats(|seg|, |imgPixels|, |smol|,
          (Extent(seg, X, b.x0, b.x1), Extent(seg, Y, b.y0, b.y1)),
          (Extent(smol, X, b.x0, b.x1), Extent(smol, Y, b.y0, b.y1)))
  }

  /** `check_pixel(image, x0, x1, y0, y1, i, j)`: the verdict for the
      component through the ink pixel `p` of the window, and the pixels it
      marks (the piece cut by the window under the windowed rule, the
      component's pixels inside the window under the clipped rule). */
  function CheckPixel(conn: Connectivity, rule: Rule, img: Image, b: Box, p: Pixel): (r: (bool, set<Pixel>))
    requires Valid(img) && p in img.ink && InBox(b, p)
    ensures p in r.1 && r.1 <= BoxInk(img, b)
    ensures rule == Clipped ==> r.1 == Seg(Component(conn, img.ink, p), b)
    ensures rule == Windowed ==> r.1 == Component(Eight, BoxInk(img, b), p)
  {
    var smol := Component(Eight, BoxInk(img, b), p);
    (Verdict(rule, PixelStats(conn, img, b, p)),
     if rule == Windowed then smol else Seg(Component(conn, img.ink, p), b))
  }

  /** The verdict of `check_pixel` over the component `C` through `p` and
      its part `S` inside the window: `|S| <= |C|`, and the component is
      kept exactly when at most two of its pixels lie outside the window,
      or the pieces are not small and `S` holds more than 15 pixels or more
      than a ninth of `C`. */
  lemma CheckPixelVerdict(conn: Connectivity, rule: Rule, img: Image, b: Box, p: Pixel)
    requires Valid(img) && p in img.ink && InBox(b, p)
    ensures var c := Component(conn, img.ink, p);
      var s := Seg(c, b);
      var st := PixelStats(conn, img, b, p);
      st.ns == |s| && st.ni == |c| && |s| <= |c|
      && (CheckPixel(conn, rule, img, b, p).0 <==>
            |c| - |s| < 3 || (!Small(rule, st) && (9 * |s| > |c| || |s| > 15)))
  {
    var c := Component(conn, img.ink, p);
    var st := PixelStats(conn, img, b, p);
    SubsetNotLarger(Seg(c, b), c);
    assert CheckPixel(conn, rule, img, b, p).0 == Verdict(rule, st);
    VerdictInIntegers(rule, st);
  }

  /** A component lying wholly inside the window always belongs to it. */
  lemma WholeComponentIsGood(conn: Connectivity, rule: Rule, img: Image, b: Box, p: Pixel)
    requires Valid(img) && p in img.ink && InBox(b, p)
    requires forall q :: q in Component(conn, img.ink, p) ==> InBox(b, q)
    ensures CheckPixel(conn, rule, img, b, p).0
  {
    var comp := Component(conn, img.ink, p);
    assert Seg(comp, b) == comp;
  }
}
