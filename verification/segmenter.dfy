/** `get_boxes` (textutils.py, One/main.py, GenerDat/textutil.py) and
    `get_rectangles` (textutil.py): each character's column band, taken from
    the character widths, is shrunk edge by edge (left, right, top, bottom)
    while the edge line holds only ink judged to belong to a neighbour. */
module Segmenter {
  import opened Wrappers
  import opened Raster
  import opened Components
  import opened Classify

  /** The three variants differ in connectivity, in the rule of
      `check_pixel`, and in whether the good and bad pixel sets are shared
      by all characters of the text or reset for each. */
  datatype Config = Config(conn: Connectivity, rule: Rule, shared: bool)

  /** textutils.py. */
  const TEXTUTILS: Config := Config(Eight, Windowed, false)
  /** One/main.py and GenerDat/textutil.py. */
  const SHARED_SETS: Config := Config(Eight, Windowed, true)
  /** textutil.py. */
  const OLDER: Config := Config(Four, Clipped, false)

  datatype BoxError =
    | EmptySegment(x0: int, x1: int)
    | ColumnOutOfImage(x0: int, x1: int)
    | DegenerateBox(box: Box)

  datatype Edge = Left | Right | Top | Bottom

  /** The box lies inside the image with its corners in order. */
  predicate Inside(img: Image, b: Box)
  {
    0 <= b.x0 <= b.x1 < img.w && 0 <= b.y0 <= b.y1 < img.h
  }

  /** The pixels `complex_condition` walks for an edge, in its order. */
  function Line(b: Box, e: Edge): (r: seq<Pixel>)
    requires b.x0 <= b.x1 && b.y0 <= b.y1
    ensures forall i :: 0 <= i < |r| ==> InBox(b, r[i])
  {
    match e
    case Left => seq(b.y1 - b.y0 + 1, j requires 0 <= j <= b.y1 - b.y0 => (b.x0, b.y0 + j))
    case Right => seq(b.y1 - b.y0 + 1, j requires 0 <= j <= b.y1 - b.y0 => (b.x1, b.y0 + j))
    case Top => seq(b.x1 - b.x0 + 1, i requires 0 <= i <= b.x1 - b.x0 => (b.x0 + i, b.y0))
    case Bottom => seq(b.x1 - b.x0 + 1, i requires 0 <= i <= b.x1 - b.x0 => (b.x0 + i, b.y1))
  }

  /** A pixel lies on the edge line of the box. */
  predicate OnEdge(b: Box, e: Edge, p: Pixel)
  {
    InBox(b, p) &&
    match e
    case Left => p.0 == b.x0
    case Right => p.0 == b.x1
    case Top => p.1 == b.y0
    case Bottom => p.1 == b.y1
  }

  lemma LineIsEdge(b: Box, e: Edge, p: Pixel)
    requires b.x0 <= b.x1 && b.y0 <= b.y1
    ensures p in Line(b, e) <==> OnEdge(b, e, p)
  {
    var l := Line(b, e);
    if OnEdge(b, e, p) {
      match e
      case Left => assert l[p.1 - b.y0] == p;
      case Right => assert l[p.1 - b.y0] == p;
      case Top => assert l[p.0 - b.x0] == p;
      case Bottom => assert l[p.0 - b.x0] == p;
    }
  }

  /** The outcome of one `complex_condition` call: whether the edge moves,
      and the pixel sets afterwards. */
  datatype Scan = Scan(move: bool, good: set<Pixel>, bad: set<Pixel>)

  /** Growth of the pixel sets stays inside the box's ink. */
  predicate Grows(img: Image, b: Box, good: set<Pixel>, bad: set<Pixel>, good': set<Pixel>, bad': set<Pixel>)
  {
    good <= good' && bad <= bad' && good' - good <= BoxInk(img, b) && bad' - bad <= BoxInk(img, b)
  }

  /** The verdict of `check_pixel` for the current window, as a function of
      the pixel, and the pixels it marks. */
  type Judge = Pixel -> (bool, set<Pixel>)

  /** `check_pixel` for the window `b`; it is only ever asked about ink
      pixels of the window. */
  function JudgeFor(cfg: Config, img: Image, b: Box): Judge
  {
    p => if Valid(img) && p in img.ink && InBox(b, p) then CheckPixel(cfg.conn, cfg.rule, img, b, p) else (false, {})
  }

  /** Every judged ink pixel of the window is among the pixels it marks,
      and those are ink of the window. */
  predicate Sound(judge: Judge, img: Image, b: Box)
  {
    forall p :: p in img.ink && InBox(b, p) ==> p in judge(p).1 && judge(p).1 <= BoxInk(img, b)
  }

  lemma JudgeForSound(cfg: Config, img: Image, b: Box)
    requires Valid(img)
    ensures Sound(JudgeFor(cfg, img, b), img, b)
  {
  }

  /** `complex_condition` from position `k` of the line: bad ink is passed
      over, known good ink stops the edge, and other ink is judged by
      `check_pixel`, which either stops the edge or marks its pixels bad. */
  function ScanLine(judge: Judge, img: Image, b: Box, line: seq<Pixel>, k: nat, good: set<Pixel>, bad: set<Pixel>)
    : (r: Scan)
    requires Sound(judge, img, b) && k <= |line|
    requires forall i :: 0 <= i < |line| ==> InBox(b, line[i])
    ensures Grows(img, b, good, bad, r.good, r.bad)
    decreases |line| - k
  {
    if k == |line| then Scan(true, good, bad)
    else
      var p := line[k];
      if p !in img.ink || p in bad then ScanLine(judge, img, b, line, k + 1, good, bad)
      else if p in good then Scan(false, good, bad)
      else
        var verdict := judge(p);
        if verdict.0 then Scan(false, good + verdict.1, bad)
        else ScanLine(judge, img, b, line, k + 1, good, bad + verdict.1)
  }

  /** All ink on the line from position `k` on is in `bad`. */
  predicate InkAllBad(img: Image, line: seq<Pixel>, k: nat, bad: set<Pixel>)
  {
    forall i :: k <= i < |line| && line[i] in img.ink ==> line[i] in bad
  }

  /** An edge moves only past ink that is all judged bad, and moving adds
      nothing to the good set. */
  lemma {:induction false} ScanMoves(judge: Judge, img: Image, b: Box, line: seq<Pixel>, k: nat, good: set<Pixel>, bad: set<Pixel>)
    requires Sound(judge, img, b) && k <= |line|
    requires forall i :: 0 <= i < |line| ==> InBox(b, line[i])
    ensures ScanLine(judge, img, b, line, k, good, bad).move ==>
      ScanLine(judge, img, b, line, k, good, bad).good == good
      && InkAllBad(img, line, k, ScanLine(judge, img, b, line, k, good, bad).bad)
    decreases |line| - k
  {
    if k < |line| {
      var p := line[k];
      if p !in img.ink || p in bad {
        var r := ScanLine(judge, img, b, line, k + 1, good, bad);
        ScanMoves(judge, img, b, line, k + 1, good, bad);
        assert ScanLine(judge, img, b, line, k, good, bad) == r;
      } else if p !in good {
        var verdict := judge(p);
        if !verdict.0 {
          var r := ScanLine(judge, img, b, line, k + 1, good, bad + verdict.1);
          ScanMoves(judge, img, b, line, k + 1, good, bad + verdict.1);
          assert ScanLine(judge, img, b, line, k, good, bad) == r;
          assert p in r.bad;
        }
      }
    }
  }

  /** Some ink pixel of the line from position `k` on is good and not bad. */
  predicate Anchored(img: Image, line: seq<Pixel>, k: nat, good: set<Pixel>, bad: set<Pixel>)
  {
    exists i :: k <= i < |line| && line[i] in img.ink && line[i] in good && line[i] !in bad
  }

  lemma StopHere(judge: Judge, img: Image, b: Box, line: seq<Pixel>, k: nat, good: set<Pixel>, bad: set<Pixel>)
    requires Sound(judge, img, b) && k < |line|
    requires forall i :: 0 <= i < |line| ==> InBox(b, line[i])
    requires line[k] in img.ink && line[k] !in bad
    requires line[k] in good || judge(line[k]).0
    ensures var r := ScanLine(judge, img, b, line, k, good, bad);
      !r.move && Anchored(img, line, k, r.good, r.bad)
  {
    var r := ScanLine(judge, img, b, line, k, good, bad);
    assert line[k] in r.good && line[k] !in r.bad;
  }

  /** Passing a pixel (skipped, or judged bad) keeps a later anchor. */
  lemma PassKeepsAnchor(judge: Judge, img: Image, b: Box, line: seq<Pixel>, k: nat, good: set<Pixel>, bad: set<Pixel>,
                        bad': set<Pixel>)
    requires Sound(judge, img, b) && k < |line|
    requires forall i :: 0 <= i < |line| ==> InBox(b, line[i])
    requires ScanLine(judge, img, b, line, k, good, bad) == ScanLine(judge, img, b, line, k + 1, good, bad')
    requires var r := ScanLine(judge, img, b, line, k + 1, good, bad');
      !r.move ==> Anchored(img, line, k + 1, r.good, r.bad)
    ensures var r := ScanLine(judge, img, b, line, k, good, bad);
      !r.move ==> Anchored(img, line, k, r.good, r.bad)
  {
    var r := ScanLine(judge, img, b, line, k, good, bad);
    if !r.move {
      var i :| k + 1 <= i < |line| && line[i] in img.ink && line[i] in r.good && line[i] !in r.bad;
    }
  }

  /** An edge stops only at an ink pixel of its line that is good and not
      bad. */
  lemma {:induction false} ScanStops(judge: Judge, img: Image, b: Box, line: seq<Pixel>, k: nat, good: set<Pixel>, bad: set<Pixel>)
    requires Sound(judge, img, b) && k <= |line|
    requires forall i :: 0 <= i < |line| ==> InBox(b, line[i])
    ensures var r := ScanLine(judge, img, b, line, k, good, bad);
      !r.move ==> Anchored(img, line, k, r.good, r.bad)
    decreases |line| - k
  {
    if k < |line| {
      var p := line[k];
      if p !in img.ink || p in bad {
        ScanStops(judge, img, b, line, k + 1, good, bad);
        assert ScanLine(judge, img, b, line, k, good, bad) == ScanLine(judge, img, b, line, k + 1, good, bad);
        PassKeepsAnchor(judge, img, b, line, k, good, bad, bad);
      } else if p !in good {
        var verdict := judge(p);
        if verdict.0 {
          StopHere(judge, img, b, line, k, good, bad);
        } else {
          var bad' := bad + verdict.1;
          ScanStops(judge, img, b, line, k + 1, good, bad');
          assert ScanLine(judge, img, b, line, k, good, bad) == ScanLine(judge, img, b, line, k + 1, good, bad');
          PassKeepsAnchor(judge, img, b, line, k, good, bad, bad');
        }
      } else {
        StopHere(judge, img, b, line, k, good, bad);
      }
    }
  }

  /** How far the edge is from the opposite one. */
  function Gap(b: Box, e: Edge): int
  {
    match e
    case Left => b.x1 - b.x0
    case Right => b.x1 - b.x0
    case Top => b.y1 - b.y0
    case Bottom => b.y1 - b.y0
  }

  /** `x0 += 1`, `x1 -= 1`, `y0 += 1` or `y1 -= 1`. */
  function Move(b: Box, e: Edge): Box
  {
    match e
    case Left => b.(x0 := b.x0 + 1)
    case Right => b.(x1 := b.x1 - 1)
    case Top => b.(y0 := b.y0 + 1)
    case Bottom => b.(y1 := b.y1 - 1)
  }

  /** The two boxes agree on every coordinate but the one of edge `e`. */
  predicate SameExcept(b: Box, c: Box, e: Edge)
  {
    match e
    case Left => c.(x0 := b.x0) == b
    case Right => c.(x1 := b.x1) == b
    case Top => c.(y0 := b.y0) == b
    case Bottom => c.(y1 := b.y1) == b
  }

  /** The window and the pixel sets between two `while` loops of the
      per-character step. */
  datatype State = State(box: Box, good: set<Pixel>, bad: set<Pixel>)

  /** A sound judge for every window. */
  ghost predicate SoundFamily(jf: Box -> Judge, img: Image)
  {
    forall b :: Sound(jf(b), img, b)
  }

  /** `check_pixel` of the configuration, for whatever window is current. */
  function Judges(cfg: Config, img: Image): (r: Box -> Judge)
    requires Valid(img)
    ensures SoundFamily(r, img)
  {
    var jf := b => JudgeFor(cfg, img, b);
    assert forall b :: Sound(jf(b), img, b) by {
      forall b ensures Sound(jf(b), img, b) {
        JudgeForSound(cfg, img, b);
      }
    }
    jf
  }

  /** `while complex_condition(...): <move edge>` for one edge. The source
      has no guard against the edge passing the opposite one: the window is
      then empty and `check_pixel` raises on the empty piece, an edge moved
      to -1 raises "No parameters.", and one moved past the far border reads
      outside the array. The model reports all of these as `DegenerateBox`. */
  function Tighten(jf: Box -> Judge, img: Image, b: Box, e: Edge, good: set<Pixel>, bad: set<Pixel>)
    : (r: Result<State, BoxError>)
    requires SoundFamily(jf, img) && Inside(img, b)
    ensures r.Success? ==> Inside(img, r.value.box) && WithinBox(r.value.box, b) && SameExcept(b, r.value.box, e)
    ensures r.Success? ==> Grows(img, b, good, bad, r.value.good, r.value.bad)
    ensures r.Failure? ==> r.error.DegenerateBox?
    decreases Gap(b, e)
  {
    var s := ScanLine(jf(b), img, b, Line(b, e), 0, good, bad);
    if !s.move then Success(State(b, s.good, s.bad))
    else if Gap(b, e) == 0 then Failure(DegenerateBox(b))
    else
      var r := Tighten(jf, img, Move(b, e), e, s.good, s.bad);
      assert BoxInk(img, Move(b, e)) <= BoxInk(img, b);
      r
  }

  /** Everything the edge moved past was bad ink: the ink of the old window
      outside the new one is in the final bad set. */
  lemma {:induction false} TightenCutsOnlyBad(jf: Box -> Judge, img: Image, b: Box, e: Edge, good: set<Pixel>, bad: set<Pixel>)
    requires SoundFamily(jf, img) && Inside(img, b)
    requires Tighten(jf, img, b, e, good, bad).Success?
    ensures var st := Tighten(jf, img, b, e, good, bad).value;
      forall p :: p in img.ink && InBox(b, p) && !InBox(st.box, p) ==> p in st.bad
    decreases Gap(b, e)
  {
    var line := Line(b, e);
    var s := ScanLine(jf(b), img, b, line, 0, good, bad);
    if s.move {
      var st := Tighten(jf, img, b, e, good, bad).value;
      ScanMoves(jf(b), img, b, line, 0, good, bad);
      TightenCutsOnlyBad(jf, img, Move(b, e), e, s.good, s.bad);
      forall p | p in img.ink && InBox(b, p) && !InBox(st.box, p)
        ensures p in st.bad
      {
        if !InBox(Move(b, e), p) {
          LineIsEdge(b, e, p);
          var i :| 0 <= i < |line| && line[i] == p;
          assert p in s.bad;
        }
      }
    }
  }

  /** Where the edge stops, its line holds an ink pixel that is good and
      not bad. */
  lemma {:induction false} TightenStopsAtGood(jf: Box -> Judge, img: Image, b: Box, e: Edge, good: set<Pixel>, bad: set<Pixel>)
    requires SoundFamily(jf, img) && Inside(img, b)
    requires Tighten(jf, img, b, e, good, bad).Success?
    ensures var st := Tighten(jf, img, b, e, good, bad).value;
      exists p :: OnEdge(st.box, e, p) && p in img.ink && p in st.good && p !in st.bad
    decreases Gap(b, e)
  {
    var line := Line(b, e);
    var s := ScanLine(jf(b), img, b, line, 0, good, bad);
    if s.move {
      TightenStopsAtGood(jf, img, Move(b, e), e, s.good, s.bad);
    } else {
      ScanStops(jf(b), img, b, line, 0, good, bad);
      var i :| 0 <= i < |line| && line[i] in img.ink && line[i] in s.good && line[i] !in s.bad;
      LineIsEdge(b, e, line[i]);
    }
  }

  /** A band of columns with ink inside the image is at least two columns
      wide and the image has a row. */
  lemma BandHasInk(img: Image, x0: int, x1: int)
    requires Valid(img) && |ColumnInk(img, x0, x1)| >= 1 && 0 <= x0 && 0 <= x1 < img.w
    ensures x0 < x1 && img.h >= 1
  {
    var p :| p in ColumnInk(img, x0, x1);
    assert SliceBound(x0, img.w) == x0 && SliceBound(x1, img.w) == x1;
    assert InSlice(p.0, x0, x1, img.w);
  }

  /** The box the per-character step starts from: the band between two
      widths, over the full height. */
  function Band(img: Image, x0: int, x1: int): Box
  {
    Box(x0, 0, x1, img.h - 1)
  }

  /** One iteration of the per-character loop: the emptiness check on the
      columns `image[x0:x1]`, then the four edge loops in the order left,
      right, top, bottom. Columns outside the image are reported as
      `ColumnOutOfImage`; the source raises there too, "No parameters." from
      `complex_condition` for a negative column (after `image[x0:x1]` has
      wrapped around) and an index error for a column past the last one. */
  function SegmentCharacter(jf: Box -> Judge, img: Image, x0: int, x1: int, good: set<Pixel>, bad: set<Pixel>)
    : (r: Result<State, BoxError>)
    requires Valid(img) && SoundFamily(jf, img)
    ensures (r.Failure? && r.error.EmptySegment?) <==> |ColumnInk(img, x0, x1)| < 4
    ensures (r.Failure? && r.error.ColumnOutOfImage?) <==> |ColumnInk(img, x0, x1)| >= 4 && (x0 < 0 || x1 < 0 || x1 >= img.w)
    ensures r.Success? ==> Inside(img, Band(img, x0, x1)) && Inside(img, r.value.box)
                           && WithinBox(r.value.box, Band(img, x0, x1))
    ensures r.Success? ==> Grows(img, Band(img, x0, x1), good, bad, r.value.good, r.value.bad)
  {
    if |ColumnInk(img, x0, x1)| < 4 then Failure(EmptySegment(x0, x1))
    else if x0 < 0 || x1 < 0 || x1 >= img.w then Failure(ColumnOutOfImage(x0, x1))
    else
      BandHasInk(img, x0, x1);
      var b := Band(img, x0, x1);
      var s1 :- Tighten(jf, img, b, Left, good, bad);
      var s2 :- Tighten(jf, img, s1.box, Right, s1.good, s1.bad);
      var s3 :- Tighten(jf, img, s2.box, Top, s2.good, s2.bad);
      var s4 :- Tighten(jf, img, s3.box, Bottom, s3.good, s3.bad);
      assert BoxInk(img, s3.box) <= BoxInk(img, s2.box) <= BoxInk(img, s1.box) <= BoxInk(img, b);
      Success(s4)
  }

  /** The box of a character drops only bad ink of its band, and it keeps
      at least one good ink pixel: its bottom row has one. */
  lemma SegmentKeepsGoodDropsBad(jf: Box -> Judge, img: Image, x0: int, x1: int, good: set<Pixel>, bad: set<Pixel>)
    requires Valid(img) && SoundFamily(jf, img)
    requires SegmentCharacter(jf, img, x0, x1, good, bad).Success?
    ensures var st := SegmentCharacter(jf, img, x0, x1, good, bad).value;
      (forall p :: p in img.ink && InBox(Band(img, x0, x1), p) && !InBox(st.box, p) ==> p in st.bad)
      && exists p :: p in img.ink && InBox(st.box, p) && p in st.good && p !in st.bad
  {
    BandHasInk(img, x0, x1);
    var b := Band(img, x0, x1);
    var s1 := Tighten(jf, img, b, Left, good, bad).value;
    var s2 := Tighten(jf, img, s1.box, Right, s1.good, s1.bad).value;
    var s3 := Tighten(jf, img, s2.box, Top, s2.good, s2.bad).value;
    var s4 := Tighten(jf, img, s3.box, Bottom, s3.good, s3.bad).value;
    TightenCutsOnlyBad(jf, img, b, Left, good, bad);
    TightenCutsOnlyBad(jf, img, s1.box, Right, s1.good, s1.bad);
    TightenCutsOnlyBad(jf, img, s2.box, Top, s2.good, s2.bad);
    TightenCutsOnlyBad(jf, img, s3.box, Bottom, s3.good, s3.bad);
    TightenStopsAtGood(jf, img, s3.box, Bottom, s3.good, s3.bad);
    assert SegmentCharacter(jf, img, x0, x1, good, bad).value == s4;
  }

  /** Boxes `i`, `i + 1`, ... lie in the image, each inside its band. */
  predicate Fits(img: Image, ws: seq<int>, i: nat, boxes: seq<Box>)
    requires i + |boxes| < |ws|
  {
    forall k :: 0 <= k < |boxes| ==> Inside(img, boxes[k]) && WithinBox(boxes[k], Band(img, ws[i + k], ws[i + k + 1]))
  }

  lemma FitsInside(img: Image, ws: seq<int>, i: nat, boxes: seq<Box>)
    requires i + |boxes| < |ws| && Fits(img, ws, i, boxes)
    ensures forall k :: 0 <= k < |boxes| ==> Inside(img, boxes[k])
  {
  }

  lemma FitsCons(img: Image, ws: seq<int>, i: nat, b: Box, rest: seq<Box>)
    requires i + 1 + |rest| < |ws|
    requires Inside(img, b) && WithinBox(b, Band(img, ws[i], ws[i + 1])) && Fits(img, ws, i + 1, rest)
    ensures Fits(img, ws, i, [b] + rest)
  {
    var r := [b] + rest;
    forall k | 0 <= k < |r|
      ensures Inside(img, r[k]) && WithinBox(r[k], Band(img, ws[i + k], ws[i + k + 1]))
    {
      if k > 0 {
        assert r[k] == rest[k - 1];
        assert i + k == (i + 1) + (k - 1);
      }
    }
  }

  /** The per-character step with the sets the configuration hands it. */
  function Step(cfg: Config, img: Image, x0: int, x1: int, good: set<Pixel>, bad: set<Pixel>)
    : (r: Result<State, BoxError>)
    requires Valid(img)
    ensures r.Success? ==> Inside(img, r.value.box) && WithinBox(r.value.box, Band(img, x0, x1))
  {
    SegmentCharacter(Judges(cfg, img), img, x0, x1, if cfg.shared then good else {}, if cfg.shared then bad else {})
  }

  /** The loop of `get_boxes` from band `i` on; `ws` is `[0] + widths`. */
  function BoxesFrom(cfg: Config, img: Image, ws: seq<int>, i: nat, good: set<Pixel>, bad: set<Pixel>)
    : (r: Result<seq<Box>, BoxError>)
    requires Valid(img) && i < |ws|
    ensures r.Success? ==> |r.value| == |ws| - 1 - i
    ensures r.Success? ==> Fits(img, ws, i, r.value)
    decreases |ws| - i
  {
    if i + 1 == |ws| then Success([])
    else
      var st :- Step(cfg, img, ws[i], ws[i + 1], good, bad);
      var rest :- BoxesFrom(cfg, img, ws, i + 1, st.good, st.bad);
      FitsCons(img, ws, i, st.box, rest);
      Success([st.box] + rest)
  }

  /** `get_boxes(image, text)` given the character widths: one box per
      width, box `k` inside the band between the previous width and width
      `k`. */
  function GetBoxes(cfg: Config, img: Image, widths: seq<int>): (r: Result<seq<Box>, BoxError>)
    requires Valid(img)
    ensures r.Success? ==> |r.value| == |widths| && Fits(img, [0] + widths, 0, r.value)
  {
    BoxesFrom(cfg, img, [0] + widths, 0, {}, {})
  }

  /** With the sets reset, the step ignores the sets it is handed. */
  lemma StepReset(cfg: Config, img: Image, x0: int, x1: int, good: set<Pixel>, bad: set<Pixel>)
    requires Valid(img) && !cfg.shared
    ensures Step(cfg, img, x0, x1, good, bad) == Step(cfg, img, x0, x1, {}, {})
  {
  }

  /** A per-band step as a function of the band's columns. */
  type Stepper = (int, int) -> Result<State, BoxError>

  /** The per-character step from empty sets. */
  function Alone(cfg: Config, img: Image): Stepper
  {
    (x0, x1) => if Valid(img) then Step(cfg, img, x0, x1, {}, {}) else Failure(EmptySegment(x0, x1))
  }

  /** Box `b` is what the step gives for the band from `ws[j]` to `ws[j + 1]`. */
  predicate StepGives(f: Stepper, ws: seq<int>, j: nat, b: Box)
    requires j + 1 < |ws|
  {
    f(ws[j], ws[j + 1]).Success? && b == f(ws[j], ws[j + 1]).value.box
  }

  predicate Standalone(f: Stepper, ws: seq<int>, i: nat, boxes: seq<Box>)
    requires i + |boxes| < |ws|
  {
    forall k :: 0 <= k < |boxes| ==> StepGives(f, ws, i + k, boxes[k])
  }

  lemma StandaloneCons(f: Stepper, ws: seq<int>, i: nat, b: Box, rest: seq<Box>)
    requires i + 1 + |rest| < |ws|
    requires StepGives(f, ws, i, b)
    requires Standalone(f, ws, i + 1, rest)
    ensures Standalone(f, ws, i, [b] + rest)
  {
    var r := [b] + rest;
    forall k | 0 <= k < |r|
      ensures StepGives(f, ws, i + k, r[k])
    {
      if k > 0 {
        assert r[k] == rest[k - 1];
        assert StepGives(f, ws, (i + 1) + (k - 1), rest[k - 1]);
      }
    }
  }

  /** With the pixel sets reset for every character, each box depends on
      its own band only: it is the box the per-character step gives from
      empty sets, whatever the other bands hold. */
  lemma {:induction false} ResetBoxesAreIndependent(cfg: Config, img: Image, ws: seq<int>, i: nat, good: set<Pixel>,
                                                    bad: set<Pixel>)
    requires Valid(img) && i < |ws| && !cfg.shared
    requires BoxesFrom(cfg, img, ws, i, good, bad).Success?
    ensures Standalone(Alone(cfg, img), ws, i, BoxesFrom(cfg, img, ws, i, good, bad).value)
    decreases |ws| - i
  {
    if i + 1 < |ws| {
      StepReset(cfg, img, ws[i], ws[i + 1], good, bad);
      var st := Step(cfg, img, ws[i], ws[i + 1], good, bad).value;
      var rest := BoxesFrom(cfg, img, ws, i + 1, st.good, st.bad).value;
      ResetBoxesAreIndependent(cfg, img, ws, i + 1, st.good, st.bad);
      assert Alone(cfg, img)(ws[i], ws[i + 1]) == Step(cfg, img, ws[i], ws[i + 1], good, bad);
      StandaloneCons(Alone(cfg, img), ws, i, st.box, rest);
    }
  }

  /** Every box holds ink. */
  predicate Inked(img: Image, boxes: seq<Box>)
  {
    forall k :: 0 <= k < |boxes| ==> exists p :: p in img.ink && InBox(boxes[k], p)
  }

  lemma InkedCons(img: Image, b: Box, rest: seq<Box>)
    requires (exists p :: p in img.ink && InBox(b, p)) && Inked(img, rest)
    ensures Inked(img, [b] + rest)
  {
    var r := [b] + rest;
    forall k | 0 <= k < |r|
      ensures exists p :: p in img.ink && InBox(r[k], p)
    {
      if k > 0 {
        assert r[k] == rest[k - 1];
      }
    }
  }

  /** Every box of a successful run holds ink. */
  lemma {:induction false} BoxesHoldInk(cfg: Config, img: Image, ws: seq<int>, i: nat, good: set<Pixel>, bad: set<Pixel>)
    requires Valid(img) && i < |ws|
    requires BoxesFrom(cfg, img, ws, i, good, bad).Success?
    ensures Inked(img, BoxesFrom(cfg, img, ws, i, good, bad).value)
    decreases |ws| - i
  {
    if i + 1 < |ws| {
      var g := if cfg.shared then good else {};
      var b := if cfg.shared then bad else {};
      var st := Step(cfg, img, ws[i], ws[i + 1], good, bad).value;
      var rest := BoxesFrom(cfg, img, ws, i + 1, st.good, st.bad).value;
      SegmentKeepsGoodDropsBad(Judges(cfg, img), img, ws[i], ws[i + 1], g, b);
      BoxesHoldInk(cfg, img, ws, i + 1, st.good, st.bad);
      InkedCons(img, st.box, rest);
    }
  }
}
