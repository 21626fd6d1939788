/** `create_meta_image(text)` of textutils.py (and of One/main.py and
    GenerDat/textutil.py): the rendered image, its character boxes, the
    character parts and, depending on two switches, masks or loosened
    boxes, packed into an `ImageMeta`. Rendering is not modelled: the image
    and the renderer's width measure are parameters. */
module Assembler {
  import opened Wrappers
  import opened Raster
  import Seqs
  import Shaping
  import Splitting
  import Widths
  import Segmenter
  import Loose
  import Meta
  import TextUtil

  /** The `TextGen` fields the assembly reads: the width of a rendered
      string (`get_size(s)[0]`), the letter-form table, the exception words
      and `reject_unknown`, plus the `get_boxes` variant of the file. */
  datatype Generator = Generator(size: string -> int, table: Shaping.Table, excs: seq<string>, reject: bool,
                                 cfg: Segmenter.Config)

  /** `using_mask` and `loosebox` of params.py. */
  datatype Settings = Settings(usingMask: bool, loosebox: bool)

  /** The flags as params.py sets them; the only ones One/main.py and
      GenerDat/textutil.py know. */
  const PLAIN: Settings := Settings(false, false)

  /** The row margin `create_meta_image` passes to `loose_boxes`. */
  const MARGIN: nat := 10

  datatype CreateError = ShapeFailed(shapeError: Shaping.ShapeError) | BoxFailed(boxError: Segmenter.BoxError)

  /** The parts `get_characters(text, reject_unknown)` returns: letter forms
      when `reject_unknown` is set (rejecting unknown letters), the raw
      characters otherwise, with the exception words grouped. */
  function Parts(g: Generator, text: string): Result<seq<string>, Shaping.ShapeError>
    requires Splitting.NonEmptyWords(g.excs)
  {
    Splitting.GetCharacters(g.table, g.excs, text, g.reject, true)
  }

  function Separators(g: Generator, text: string): Result<seq<int>, Shaping.ShapeError>
    requires Splitting.NonEmptyWords(g.excs)
  {
    Widths.CharacterWidths(g.size, g.table, g.excs, text, g.reject)
  }

  /** One `get_mask` grid per box, in order. */
  function Masks(img: Image, boxes: seq<Box>): (r: seq<seq<seq<bool>>>)
    requires Valid(img)
    ensures |r| == |boxes|
  {
    seq(|boxes|, k requires 0 <= k < |boxes| => GetMask(img, boxes[k]))
  }

  /** The parts and boxes of `text`: the widths are computed first (inside
      `get_boxes`), then the boxes, then the parts; the first failure is the
      one reported. Box `k` lies in the image, inside the column band from
      separator `k - 1` to separator `k` (the first band starting at column
      0), and holds ink. */
  function Pieces(g: Generator, img: Image, text: string): (r: Result<(seq<string>, seq<Box>), CreateError>)
    requires Valid(img) && Splitting.NonEmptyWords(g.excs)
    ensures g.reject && Shaping.FreezeLetters(g.table, text, true).Failure? ==> r.Failure?
    ensures r.Success? ==> r.value.0 == Parts(g, text).value
    ensures r.Success? ==>
      Separators(g, text).Success?
      && var ws := Separators(g, text).value;
      |r.value.1| == |ws| && Segmenter.Fits(img, [0] + ws, 0, r.value.1) && Segmenter.Inked(img, r.value.1)
    ensures r.Success? && |text| >= 2 ==> |r.value.1| == |r.value.0|
    ensures r.Success? ==> Seqs.Concat(r.value.0) == (if g.reject then Shaping.FreezeLetters(g.table, text, true).value else text)
  {
    var widths := Separators(g, text);
    if widths.Failure? then Failure(ShapeFailed(widths.error))
    else
      var boxes := Segmenter.GetBoxes(g.cfg, img, widths.value);
      if boxes.Failure? then Failure(BoxFailed(boxes.error))
      else
        var parts := Parts(g, text);
        if parts.Failure? then Failure(ShapeFailed(parts.error))
        else
          Segmenter.BoxesHoldInk(g.cfg, img, [0] + widths.value, 0, {}, {});
          assert |text| >= 2 ==> |boxes.value| == |parts.value| by {
            if |text| >= 2 {
              SameParts(g, text);
            }
          }
          Success((parts.value, boxes.value))
  }

  /** The `ImageMeta` built from the parts and boxes under the switches:
      masks of the tight boxes with `using_mask`, else the boxes loosened by
      `MARGIN` rows clipped to `bound` with `loosebox`, else the tight
      boxes. */
  function PackWith(s: Settings, bound: nat, c: Meta.Counter, img: Image, text: string, parts: seq<string>, boxes: seq<Box>)
    : (r: (Meta.ImageMeta, Meta.Counter))
    requires Valid(img)
    ensures r.0.text == text && r.0.image == img && r.0.parts == parts && r.0.length == |parts|
    ensures r.0.id == c.next && r.1 == Meta.Counter(c.next + 1)
    ensures |r.0.boxes| == |boxes|
    ensures !s.usingMask ==> r.0.masks == Meta.MaskList([])
    ensures s.usingMask || !s.loosebox ==> r.0.boxes == boxes
    ensures s.usingMask ==> r.0.masks == Meta.MaskList(Masks(img, boxes))
    ensures !s.usingMask && s.loosebox ==> LoosenedBy(boxes, bound, r.0.boxes)
  {
    var masks := if s.usingMask then Masks(img, boxes) else [];
    var kept := if !s.usingMask && s.loosebox
                then Loose.LooseBoxesWith(boxes, bound, Loose.IntMargin(MARGIN)).value
                else boxes;
    Meta.NewImageMeta(c, text, img, parts, kept, Meta.MaskList(masks), -1)
  }

  /** Box `k` of `loosened` has the columns of box `k` of `boxes` and its
      rows widened by `MARGIN`, each clipped to `[0, bound]`. */
  predicate LoosenedBy(boxes: seq<Box>, bound: nat, loosened: seq<Box>)
  {
    |loosened| == |boxes|
    && forall k :: 0 <= k < |boxes| ==>
         loosened[k].x0 == boxes[k].x0 && loosened[k].x1 == boxes[k].x1
         && loosened[k].y0 == Loose.Clip(boxes[k].y0 - MARGIN, bound)
         && loosened[k].y1 == Loose.Clip(boxes[k].y1 + MARGIN, bound)
  }

  /** The record `create_meta_image` builds, as written: `loose_boxes` is
      given `image.shape`, and `loose` clips the rows to `shape[1]`, the
      number of columns of the image. */
  function Pack(s: Settings, c: Meta.Counter, img: Image, text: string, parts: seq<string>, boxes: seq<Box>)
    : (r: (Meta.ImageMeta, Meta.Counter))
    requires Valid(img)
    ensures r.0.text == text && r.0.image == img && r.0.parts == parts && r.0.id == c.next
    ensures s.usingMask || !s.loosebox ==> r.0.boxes == boxes
    ensures !s.usingMask && s.loosebox ==> LoosenedBy(boxes, img.w, r.0.boxes)
  {
    PackWith(s, Loose.BoundAsWritten(Loose.Shape2(img.h, img.w)), c, img, text, parts, boxes)
  }

  /** The record with the loosened rows clipped to the number of rows of
      the image, as `loose` is evidently meant to clip. */
  function PackRows(s: Settings, c: Meta.Counter, img: Image, text: string, parts: seq<string>, boxes: seq<Box>)
    : (r: (Meta.ImageMeta, Meta.Counter))
    requires Valid(img)
    ensures r.0.text == text && r.0.image == img && r.0.parts == parts && r.0.id == c.next
    ensures s.usingMask || !s.loosebox ==> r.0.boxes == boxes
    ensures !s.usingMask && s.loosebox ==> LoosenedBy(boxes, img.h, r.0.boxes)
  {
    PackWith(s, Loose.RowBound(Loose.Shape2(img.h, img.w)), c, img, text, parts, boxes)
  }

  /** `create_meta_image(text)` for the image `img` rendered from `text`,
      with the class counter `c`, as written. */
  function CreateMetaImage(g: Generator, s: Settings, c: Meta.Counter, img: Image, text: string)
    : (r: Result<(Meta.ImageMeta, Meta.Counter), CreateError>)
    requires Valid(img) && Splitting.NonEmptyWords(g.excs)
    ensures g.reject && Shaping.FreezeLetters(g.table, text, true).Failure? ==> r.Failure?
    ensures r.Success? ==>
      var m := r.value.0;
      m.text == text && m.image == img && m.length == |m.parts| && m.id == c.next
      && r.value.1 == Meta.Counter(c.next + 1)
      && Seqs.Concat(m.parts) == (if g.reject then Shaping.FreezeLetters(g.table, text, true).value else text)
    ensures r.Success? && |text| >= 2 ==> |r.value.0.boxes| == |r.value.0.parts|
    ensures r.Success? && !s.usingMask ==> r.value.0.masks == Meta.MaskList([])
    ensures r.Success? && s.usingMask ==> r.value.0.masks.MaskList? && |r.value.0.masks.masks| == |r.value.0.boxes|
  {
    var p :- Pieces(g, img, text);
    Success(Pack(s, c, img, text, p.0, p.1))
  }

  /** `create_meta_image(text)` with the loosened rows clipped to the rows
      of the image; everything else as written. */
  function CreateMetaImageRows(g: Generator, s: Settings, c: Meta.Counter, img: Image, text: string)
    : (r: Result<(Meta.ImageMeta, Meta.Counter), CreateError>)
    requires Valid(img) && Splitting.NonEmptyWords(g.excs)
    ensures r.Failure? <==> Pieces(g, img, text).Failure?
    ensures r.Success? ==>
      var m := r.value.0;
      m.text == text && m.image == img && m.id == c.next && m.parts == Pieces(g, img, text).value.0
      && (s.usingMask || !s.loosebox ==> m.boxes == Pieces(g, img, text).value.1)
  {
    var p :- Pieces(g, img, text);
    Success(PackRows(s, c, img, text, p.0, p.1))
  }

  /** The widths are taken from `get_characters(text, reject_unknown,
      reject_unknown)` and the parts from `get_characters(text,
      reject_unknown)`; the two calls split the text alike, since without
      freezing the `reject` flag is never looked at. */
  lemma SameParts(g: Generator, text: string)
    requires Splitting.NonEmptyWords(g.excs) && |text| >= 2
    requires Separators(g, text).Success? && Parts(g, text).Success?
    ensures |Separators(g, text).value| == |Parts(g, text).value|
  {
    var a := Splitting.GetCharacters(g.table, g.excs, text, g.reject, g.reject);
    assert a.value == Parts(g, text).value;
  }

  /** There is one mask per box, a full image-sized grid, and mask `k`
      marks exactly the ink inside box `k`. */
  predicate MasksMatch(img: Image, m: Meta.ImageMeta)
  {
    m.masks.MaskList? && |m.masks.masks| == |m.boxes|
    && forall k, x, y :: 0 <= k < |m.boxes| && 0 <= x < img.w && 0 <= y < img.h ==>
         |m.masks.masks[k]| == img.w && |m.masks.masks[k][x]| == img.h
         && (m.masks.masks[k][x][y] <==> (x, y) in BoxInk(img, m.boxes[k]))
  }

  /** With `using_mask` the boxes and parts are those of a plain run, and
      mask `k` marks exactly the ink inside box `k`. */
  lemma MasksAreBoxInk(g: Generator, loosebox: bool, c: Meta.Counter, img: Image, text: string)
    requires Valid(img) && Splitting.NonEmptyWords(g.excs)
    ensures var plain := CreateMetaImage(g, PLAIN, c, img, text);
      var masked := CreateMetaImage(g, Settings(true, loosebox), c, img, text);
      (masked.Success? <==> plain.Success?)
      && (masked.Success? ==>
            var m := masked.value.0;
            m.boxes == plain.value.0.boxes && m.parts == plain.value.0.parts && MasksMatch(img, m))
  {
    var p := Pieces(g, img, text);
    if p.Success? {
      var (parts, boxes) := p.value;
      Segmenter.FitsInside(img, [0] + Separators(g, text).value, 0, boxes);
      PackedMasks(Settings(true, loosebox), c, img, text, parts, boxes);
    }
  }

  /** Packed with `using_mask`, the boxes are kept and each mask marks
      exactly its box's ink. */
  lemma PackedMasks(s: Settings, c: Meta.Counter, img: Image, text: string, parts: seq<string>, boxes: seq<Box>)
    requires Valid(img) && s.usingMask
    requires forall k :: 0 <= k < |boxes| ==> Segmenter.Inside(img, boxes[k])
    ensures var m := Pack(s, c, img, text, parts, boxes).0;
      m.boxes == boxes && MasksMatch(img, m)
  {
    MasksMarkInk(img, boxes);
  }

  /** Each mask of boxes lying in the image marks exactly its box's ink. */
  lemma MasksMarkInk(img: Image, boxes: seq<Box>)
    requires Valid(img) && forall k :: 0 <= k < |boxes| ==> Segmenter.Inside(img, boxes[k])
    ensures var ms := Masks(img, boxes);
      forall k, x, y :: 0 <= k < |boxes| && 0 <= x < img.w && 0 <= y < img.h ==>
        |ms[k]| == img.w && |ms[k][x]| == img.h && (ms[k][x][y] <==> (x, y) in BoxInk(img, boxes[k]))
  {
    var ms := Masks(img, boxes);
    forall k | 0 <= k < |boxes|
      ensures forall x, y :: 0 <= x < img.w && 0 <= y < img.h ==>
        |ms[k]| == img.w && |ms[k][x]| == img.h && (ms[k][x][y] <==> (x, y) in BoxInk(img, boxes[k]))
    {
      assert ms[k] == GetMask(img, boxes[k]);
      MaskIsBoxInk(img, boxes[k]);
    }
  }

  /** With `loosebox` (and no masks) the parts are those of a plain run and
      box `k` keeps the columns of the plain box `k`, with its rows widened
      by `MARGIN` and clipped to the number of columns. The loosened box
      therefore contains the plain one only when the plain rows end within
      that bound, as they do in an image at least as wide as it is high. */
  lemma LooseBoxesContainPlain(g: Generator, c: Meta.Counter, img: Image, text: string)
    requires Valid(img) && Splitting.NonEmptyWords(g.excs)
    ensures var plain := CreateMetaImage(g, PLAIN, c, img, text);
      var loose := CreateMetaImage(g, Settings(false, true), c, img, text);
      (loose.Success? <==> plain.Success?)
      && (loose.Success? ==>
            var lb := loose.value.0.boxes;
            var pb := plain.value.0.boxes;
            loose.value.0.parts == plain.value.0.parts && LoosenedBy(pb, img.w, lb)
            && forall k :: 0 <= k < |lb| ==>
                 lb[k].y1 <= img.w && (img.h <= img.w ==> WithinBox(pb[k], lb[k])))
  {
    var p := Pieces(g, img, text);
    if p.Success? {
      Segmenter.FitsInside(img, [0] + Separators(g, text).value, 0, p.value.1);
    }
  }

  /** With the rows clipped to the image, every loosened box contains its
      plain box and stays within the rows of the image. */
  lemma LooseRowsContainPlain(g: Generator, c: Meta.Counter, img: Image, text: string)
    requires Valid(img) && Splitting.NonEmptyWords(g.excs)
    ensures var plain := CreateMetaImageRows(g, PLAIN, c, img, text);
      var loose := CreateMetaImageRows(g, Settings(false, true), c, img, text);
      (loose.Success? <==> plain.Success?)
      && (loose.Success? ==>
            var lb := loose.value.0.boxes;
            var pb := plain.value.0.boxes;
            loose.value.0.parts == plain.value.0.parts && |lb| == |pb|
            && forall k :: 0 <= k < |lb| ==>
                 lb[k].x0 == pb[k].x0 && lb[k].x1 == pb[k].x1
                 && WithinBox(pb[k], lb[k]) && 0 <= lb[k].y0 <= lb[k].y1 <= img.h)
  {
    var p := Pieces(g, img, text);
    if p.Success? {
      Segmenter.FitsInside(img, [0] + Separators(g, text).value, 0, p.value.1);
    }
  }

  /** `create_meta_image(text)` of textutil.py: boxes from `get_rectangles`
      (the older widths and the clipped rule), parts from the backward
      split, and an `ImageMeta` that always takes its id from the counter.
      For a text without spaces and with two or more characters besides
      joiners there is one box per part; the parts are stored last first. */
  function CreateMetaImageOlder(size: string -> int, excs: seq<string>, c: Meta.Counter, img: Image, text: string)
    : (r: Result<(Meta.ImageMeta, Meta.Counter), CreateError>)
    requires Valid(img)
    ensures r.Failure? <==> Segmenter.GetBoxes(Segmenter.OLDER, img, Widths.CharacterWidthsOlder(size, excs, text)).Failure?
    ensures r.Success? ==>
      var m := r.value.0;
      m.text == text && m.image == img && m.id == c.next && r.value.1 == Meta.Counter(c.next + 1)
      && Seqs.Concat(Seqs.Reverse(m.parts)) == text && m.masks == Meta.MaskList([])
    ensures r.Success? && (forall i :: 0 <= i < |text| ==> text[i] != ' ')
            && |text| - TextUtil.CountChar(TextUtil.JOINER, text) >= 2 ==>
      |r.value.0.boxes| == |r.value.0.parts|
  {
    var boxes := Segmenter.GetBoxes(Segmenter.OLDER, img, Widths.CharacterWidthsOlder(size, excs, text));
    if boxes.Failure? then Failure(BoxFailed(boxes.error))
    else
      var parts := TextUtil.GetCharacters(excs, text);
      assert (forall i :: 0 <= i < |text| ==> text[i] != ' ') && |text| - TextUtil.CountChar(TextUtil.JOINER, text) >= 2
             ==> |boxes.value| == |parts| by {
        if (forall i :: 0 <= i < |text| ==> text[i] != ' ') && |text| - TextUtil.CountChar(TextUtil.JOINER, text) >= 2 {
          Widths.OlderWidthsMatchParts(size, excs, text);
        }
      }
      Success(Meta.NewImageMeta(c, text, img, parts, boxes.value, Meta.MaskList([]), -1))
  }
}
