/** The rendered image, seen as the code sees it after `image.transpose()`:
    `w` columns by `h` rows indexed `[x, y]`, and the set of ink pixels
    (those whose grey value is above zero). Boxes have inclusive corners. */
module Raster {

  type Pixel = (int, int)

  datatype Image = Image(w: nat, h: nat, ink: set<Pixel>)

  predicate Valid(img: Image)
  {
    forall p :: p in img.ink ==> 0 <= p.0 < img.w && 0 <= p.1 < img.h
  }

  /** `(x0, y0, x1, y1)` with both corners inside the box. */
  datatype Box = Box(x0: int, y0: int, x1: int, y1: int)

  predicate InBox(b: Box, p: Pixel)
  {
    b.x0 <= p.0 <= b.x1 && b.y0 <= p.1 <= b.y1
  }

  predicate WithinBox(inner: Box, outer: Box)
  {
    outer.x0 <= inner.x0 && inner.x1 <= outer.x1 && outer.y0 <= inner.y0 && inner.y1 <= outer.y1
  }

  /** The ink pixels of a box. */
  function BoxInk(img: Image, b: Box): (r: set<Pixel>)
    ensures forall p :: p in r <==> p in img.ink && InBox(b, p)
  {
    set p | p in img.ink && InBox(b, p)
  }

  /** The indices `range(n)[lo:hi]` selects: Python's slice normalisation,
      negative bounds counted from the end and everything clipped to `n`. */
  function SliceBound(v: int, n: nat): (r: nat)
    ensures r <= n
    ensures 0 <= v <= n ==> r == v
  {
    if v < 0 then (if v + n < 0 then 0 else v + n) else if v > n then n else v
  }

  predicate InSlice(i: int, lo: int, hi: int, n: nat)
  {
    SliceBound(lo, n) <= i < SliceBound(hi, n)
  }

  /** The ink pixels of `image[lo:hi]`, a band of whole columns. */
  function ColumnInk(img: Image, lo: int, hi: int): (r: set<Pixel>)
    ensures forall p :: p in r <==> p in img.ink && InSlice(p.0, lo, hi, img.w)
  {
    set p | p in img.ink && InSlice(p.0, lo, hi, img.w)
  }

  /** `get_mask(image, x0, y0, x1, y1)`: a `w` by `h` grid that is set
      exactly on the ink pixels of `image[x0:x1 + 1, y0:y1 + 1]`. */
  function GetMask(img: Image, b: Box): (r: seq<seq<bool>>)
    requires Valid(img)
    ensures |r| == img.w && forall x :: 0 <= x < img.w ==> |r[x]| == img.h
    ensures forall x, y :: 0 <= x < img.w && 0 <= y < img.h ==>
      (r[x][y] <==> (x, y) in img.ink && InSlice(x, b.x0, b.x1 + 1, img.w) && InSlice(y, b.y0, b.y1 + 1, img.h))
  {
    seq(img.w, x requires 0 <= x < img.w =>
      seq(img.h, y requires 0 <= y < img.h =>
        (x, y) in img.ink && InSlice(x, b.x0, b.x1 + 1, img.w) && InSlice(y, b.y0, b.y1 + 1, img.h)))
  }

  /** For a box whose corners lie in the image, the mask is exactly the
      box's ink. */
  lemma MaskIsBoxInk(img: Image, b: Box)
    requires Valid(img)
    requires 0 <= b.x0 <= b.x1 < img.w && 0 <= b.y0 <= b.y1 < img.h
    ensures var m := GetMask(img, b);
      forall x, y :: 0 <= x < img.w && 0 <= y < img.h ==> (m[x][y] <==> (x, y) in BoxInk(img, b))
  {
  }

  /** The mask never marks a pixel that is not ink: the box only narrows. */
  lemma MaskWithinInk(img: Image, b: Box)
    requires Valid(img)
    ensures var m := GetMask(img, b);
      forall x, y :: 0 <= x < img.w && 0 <= y < img.h && m[x][y] ==> (x, y) in img.ink
  {
  }
}
