/** `loose`/`loose_boxes` of textutils.py on the integer path: every box
    keeps its columns and has its rows widened by a margin, clipped to the
    image. */
module Loose {
  import opened Wrappers
  import opened Raster

  /** The `shape` argument: a bare int, or the `(rows, columns)` shape of
      the image array. */
  datatype Shape = Length(n: nat) | Shape2(rows: nat, columns: nat)

  /** The margin: an int, or a value of a type other than int and float.
      Float margins are not part of this model. */
  datatype Margin = IntMargin(v: int) | OtherMargin

  datatype LooseError = TypeError

  /** `int(np.clip(num, 0, h))`. */
  function Clip(num: int, h: nat): (r: nat)
    ensures r <= h
    ensures 0 <= num <= h ==> r == num
    ensures num < 0 ==> r == 0
    ensures num > h ==> r == h
  {
    if num < 0 then 0 else if num > h then h else num
  }

  /** The bound `loose` clips to, as written: `shape[1]` of a tuple shape,
      which for an image array is its number of columns. */
  function BoundAsWritten(shape: Shape): nat
  {
    match shape
    case Length(n) => n
    case Shape2(_, columns) => columns
  }

  /** The bound the rows are meant to be clipped to: the number of rows. */
  function RowBound(shape: Shape): nat
  {
    match shape
    case Length(n) => n
    case Shape2(rows, _) => rows
  }

  /** `loose(y0, y1, shape, value)` against the bound `h`. */
  function LooseWith(y0: int, y1: int, h: nat, margin: Margin): (r: Result<(nat, nat), LooseError>)
    ensures r.Failure? <==> margin.OtherMargin?
    ensures r.Success? ==> r.value.0 <= h && r.value.1 <= h
    ensures r.Success? && 0 <= y0 <= h && margin.v >= 0 ==> r.value.0 <= y0
    ensures r.Success? && 0 <= y1 <= h && margin.v >= 0 ==> y1 <= r.value.1
    ensures r.Success? && y0 <= y1 && margin.v >= 0 ==> r.value.0 <= r.value.1
  {
    match margin
    case IntMargin(v) => Success((Clip(y0 - v, h), Clip(y1 + v, h)))
    case OtherMargin => Failure(TypeError)
  }

  /** `loose` as written. */
  function LooseAsWritten(y0: int, y1: int, shape: Shape, margin: Margin): (r: Result<(nat, nat), LooseError>)
    ensures r.Failure? <==> margin.OtherMargin?
    ensures r.Success? && shape.Shape2? ==> r.value.0 <= shape.columns && r.value.1 <= shape.columns
  {
    LooseWith(y0, y1, BoundAsWritten(shape), margin)
  }

  /** `loose` clipping to the rows of the image. */
  function Loose(y0: int, y1: int, shape: Shape, margin: Margin): (r: Result<(nat, nat), LooseError>)
    ensures r.Failure? <==> margin.OtherMargin?
    ensures r.Success? ==> r.value.0 <= RowBound(shape) && r.value.1 <= RowBound(shape)
  {
    LooseWith(y0, y1, RowBound(shape), margin)
  }

  /** For a 30-row, 100-column image, loosening rows 5..25 by 10 gives
      rows 0..35 as written, past the last row; clipped to the rows it gives
      0..30. */
  lemma LooseAsWrittenPassesRows()
    ensures LooseAsWritten(5, 25, Shape2(30, 100), IntMargin(10)) == Success((0, 35))
    ensures Loose(5, 25, Shape2(30, 100), IntMargin(10)) == Success((0, 30))
  {
  }

  /** `loose_boxes` with the bound `h`: columns kept, rows loosened, one box
      per input box, in order. With no boxes the margin is never looked at. */
  function LooseBoxesWith(boxes: seq<Box>, h: nat, margin: Margin): (r: Result<seq<Box>, LooseError>)
    ensures r.Failure? <==> |boxes| > 0 && margin.OtherMargin?
    ensures r.Success? ==> |r.value| == |boxes|
    ensures r.Success? ==> forall i :: 0 <= i < |boxes| ==>
      var l := LooseWith(boxes[i].y0, boxes[i].y1, h, margin).value;
      r.value[i] == Box(boxes[i].x0, l.0, boxes[i].x1, l.1)
  {
    if |boxes| == 0 then Success([])
    else if margin.OtherMargin? then Failure(TypeError)
    else
      var b := boxes[0];
      var ys := LooseWith(b.y0, b.y1, h, margin).value;
      var rest := LooseBoxesWith(boxes[1..], h, margin).value;
      var r := [Box(b.x0, ys.0, b.x1, ys.1)] + rest;
      assert forall i :: 1 <= i < |boxes| ==> boxes[i] == boxes[1..][i - 1] && r[i] == rest[i - 1];
      Success(r)
  }

  /** `loose_boxes` as written: the rows of an image shape are clipped to
      its number of columns. */
  function LooseBoxesAsWritten(boxes: seq<Box>, shape: Shape, margin: Margin): (r: Result<seq<Box>, LooseError>)
    ensures r.Failure? <==> |boxes| > 0 && margin.OtherMargin?
    ensures r.Success? ==> |r.value| == |boxes|
    ensures r.Success? && shape.Shape2? ==> forall i :: 0 <= i < |boxes| ==>
      r.value[i].x0 == boxes[i].x0 && r.value[i].x1 == boxes[i].x1
      && r.value[i].y0 <= shape.columns && r.value[i].y1 <= shape.columns
  {
    LooseBoxesWith(boxes, BoundAsWritten(shape), margin)
  }

  /** `loose_boxes` clipping to the rows of the image. */
  function LooseBoxes(boxes: seq<Box>, shape: Shape, margin: Margin): (r: Result<seq<Box>, LooseError>)
    ensures r.Failure? <==> |boxes| > 0 && margin.OtherMargin?
    ensures r.Success? ==> |r.value| == |boxes|
    ensures r.Success? ==> forall i :: 0 <= i < |boxes| ==>
      r.value[i].x0 == boxes[i].x0 && r.value[i].x1 == boxes[i].x1
      && r.value[i].y0 <= RowBound(shape) && r.value[i].y1 <= RowBound(shape)
  {
    LooseBoxesWith(boxes, RowBound(shape), margin)
  }

  /** With a non-negative margin, a box whose rows lie within the bound
      stays inside its loosened box, and the loosened box stays within the
      rows of the image. */
  lemma LooseBoxesContain(boxes: seq<Box>, shape: Shape, v: nat)
    requires forall i :: 0 <= i < |boxes| ==> 0 <= boxes[i].y0 <= boxes[i].y1 <= RowBound(shape)
    ensures var r := LooseBoxes(boxes, shape, IntMargin(v));
      r.Success? && forall i :: 0 <= i < |boxes| ==>
        WithinBox(boxes[i], r.value[i]) && 0 <= r.value[i].y0 <= r.value[i].y1 <= RowBound(shape)
  {
  }

  /** A zero margin leaves boxes within the bound unchanged. */
  lemma ZeroMarginIsIdentity(boxes: seq<Box>, shape: Shape)
    requires forall i :: 0 <= i < |boxes| ==> 0 <= boxes[i].y0 <= RowBound(shape) && 0 <= boxes[i].y1 <= RowBound(shape)
    ensures LooseBoxes(boxes, shape, IntMargin(0)) == Success(boxes)
  {
    var res := LooseBoxesWith(boxes, RowBound(shape), IntMargin(0));
    assert res.Success?;
    var r := res.value;
    assert |r| == |boxes|;
    assert forall i :: 0 <= i < |boxes| ==> r[i] == boxes[i];
    assert r == boxes;
  }
}
