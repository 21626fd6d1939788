/** The sample records: `ImageMeta` (percato/container.py,
    GenerDat/container.py, One/main.py) with its class-wide id counter and
    `to_dict`, `DetectronMeta` (percato/container.py) with its annotation
    list and automatic label ids, and the JSON-array framing of the
    generation loop (One/main.py, GenerDat/textutil.py). */
module Meta {
  import opened Wrappers
  import opened Seqs
  import opened Raster

  /** The class attribute `ImageMeta.id`: the next id to hand out. It starts
      at 0. */
  datatype Counter = Counter(next: int)

  const START: Counter := Counter(0)

  /** What the `masks` slot holds: a list of masks, or, when a caller passes
      an id into that slot by position, a number. */
  datatype MaskSlot = MaskList(masks: seq<seq<seq<bool>>>) | Number(n: int)

  /** An `ImageMeta` instance. The image is kept as its shape: `w` columns
      and `h` rows. */
  datatype ImageMeta = ImageMeta(text: string, image: Image, parts: seq<string>, boxes: seq<Box>,
                                 masks: MaskSlot, length: nat, id: int)

  /** `ImageMeta(text, image, parts, boxes, masks, id)`: an id above zero is
      kept; any other id, 0 included, is replaced by the counter, which then
      advances. */
  function NewImageMeta(c: Counter, text: string, image: Image, parts: seq<string>, boxes: seq<Box>,
                        masks: MaskSlot, id: int): (r: (ImageMeta, Counter))
    ensures r.0.text == text && r.0.image == image && r.0.parts == parts && r.0.boxes == boxes && r.0.masks == masks
    ensures r.0.length == |parts|
    ensures id > 0 ==> r.0.id == id && r.1 == c
    ensures id <= 0 ==> r.0.id == c.next && r.1 == Counter(c.next + 1)
  {
    if id > 0 then (ImageMeta(text, image, parts, boxes, masks, |parts|, id), c)
    else (ImageMeta(text, image, parts, boxes, masks, |parts|, c.next), Counter(c.next + 1))
  }

  /** The ids a run of constructions with the given `id` arguments
      receives, and the counter afterwards. */
  function AssignIds(c: Counter, ids: seq<int>): (r: (seq<int>, Counter))
    ensures |r.0| == |ids|
    ensures r.1.next >= c.next
    decreases |ids|
  {
    if |ids| == 0 then ([], c)
    else
      var m := NewImageMeta(c, [], Image(0, 0, {}), [], [], MaskList([]), ids[0]);
      var rest := AssignIds(m.1, ids[1..]);
      ([m.0.id] + rest.0, rest.1)
  }

  /** Explicit ids are kept, and automatic ids are handed out from the
      counter in increasing order: every one of them is at least the
      counter's start and below its end, and a later one is larger. */
  lemma {:induction false} AutoIdsIncrease(c: Counter, ids: seq<int>)
    ensures var r := AssignIds(c, ids);
      (forall i :: 0 <= i < |ids| && ids[i] > 0 ==> r.0[i] == ids[i])
      && (forall i :: 0 <= i < |ids| && ids[i] <= 0 ==> c.next <= r.0[i] < r.1.next)
      && (forall i, j :: 0 <= i < j < |ids| && ids[i] <= 0 && ids[j] <= 0 ==> r.0[i] < r.0[j])
    decreases |ids|
  {
    if |ids| > 0 {
      var m := NewImageMeta(c, [], Image(0, 0, {}), [], [], MaskList([]), ids[0]);
      AutoIdsIncrease(m.1, ids[1..]);
      var r := AssignIds(c, ids);
      var rest := AssignIds(m.1, ids[1..]);
      assert r.0 == [m.0.id] + rest.0;
      assert forall i :: 1 <= i < |ids| ==> r.0[i] == rest.0[i - 1] && ids[i] == ids[1..][i - 1];
    }
  }

  /** The JSON object `to_dict` returns; `parts` is `None` where the source
      emits `None`, and `masks` is only present when masks are exported. */
  datatype Record = Record(id: int, text: string, imageName: string, parts: Option<seq<string>>,
                           width: nat, height: nat, boxes: seq<Box>, masks: Option<MaskSlot>, n: nat)

  /** `to_dict(path)` of percato/container.py: `parts` is reversed in place
      and the reversed list is emitted; `masks` is emitted only when
      `using_mask` is set. The updated instance is returned with the
      record. */
  function ToDict(m: ImageMeta, path: string, usingMask: bool): (r: (Record, ImageMeta))
    ensures r.1 == m.(parts := Reverse(m.parts))
    ensures r.0.parts == Some(r.1.parts)
    ensures r.0.masks.Some? <==> usingMask
    ensures r.0.id == m.id && r.0.n == m.length && r.0.width == m.image.w && r.0.height == m.image.h
  {
    var m' := m.(parts := Reverse(m.parts));
    (Record(m.id, m.text, path, Some(m'.parts), m.image.w, m.image.h, m.boxes,
            if usingMask then Some(m.masks) else None, m.length), m')
  }

  /** The two branches of `to_dict` differ in the `masks` key only. */
  lemma MasksKeyOnly(m: ImageMeta, path: string)
    ensures ToDict(m, path, true).0.(masks := None) == ToDict(m, path, false).0
    ensures ToDict(m, path, true).1 == ToDict(m, path, false).1
  {
  }

  /** Every call reverses the stored parts, so a second call restores the
      original order and emits the parts as first stored. */
  lemma ToDictTwice(m: ImageMeta, path: string, usingMask: bool)
    ensures var first := ToDict(m, path, usingMask);
      var second := ToDict(first.1, path, usingMask);
      second.1 == m && second.0.parts == Some(m.parts) && first.0.parts == Some(Reverse(m.parts))
  {
    ReverseReverse(m.parts);
  }

  /** The number of parts recorded at construction stays the `n` of every
      record, however often `to_dict` runs. */
  lemma LengthIsConstructionLength(c: Counter, text: string, image: Image, parts: seq<string>, boxes: seq<Box>,
                                   masks: MaskSlot, id: int, path: string, usingMask: bool)
    ensures var m := NewImageMeta(c, text, image, parts, boxes, masks, id).0;
      ToDict(m, path, usingMask).0.n == |parts| && ToDict(ToDict(m, path, usingMask).1, path, usingMask).0.n == |parts|
  {
  }

  /** `to_dict(path)` of GenerDat/container.py: the parts and boxes as
      stored, nothing changed. */
  function ToDictGenerDat(m: ImageMeta, path: string): (r: Record)
    ensures r.parts == Some(m.parts) && r.boxes == m.boxes && r.masks.None?
    ensures r.height == m.image.h && r.width == m.image.w && r.n == m.length && r.id == m.id
  {
    Record(m.id, m.text, path, Some(m.parts), m.image.w, m.image.h, m.boxes, None, m.length)
  }

  /** `to_dict(path)` of textutil.py as written: it unpacks the shape of the
      image array as `w, h`, but an image array's shape starts with its
      number of rows, so `width` receives the height and `height` the
      width. */
  function ToDictOlderAsWritten(m: ImageMeta, path: string): (r: Record)
    ensures r.width == m.image.h && r.height == m.image.w
    ensures r.parts == Some(m.parts) && r.boxes == m.boxes && r.n == m.length && r.id == m.id
  {
    Record(m.id, m.text, path, Some(m.parts), m.image.h, m.image.w, m.boxes, None, m.length)
  }

  /** For a sample that is not square the record of textutil.py misstates
      its width; with the two sides exchanged it is the record of
      GenerDat/container.py. */
  lemma ToDictOlderSwapsSides(m: ImageMeta, path: string)
    requires m.image.w != m.image.h
    ensures ToDictOlderAsWritten(m, path).width != m.image.w
    ensures ToDictOlderAsWritten(m, path).(width := m.image.w, height := m.image.h) == ToDictGenerDat(m, path)
  {
  }

  /** `to_dict(path)` of One/main.py as written: the `parts` entry is the
      value of `self.parts.reverse()`, which is `None`, while the stored
      parts are reversed. */
  function ToDictOneAsWritten(m: ImageMeta, path: string): (r: (Record, ImageMeta))
    ensures r.0.parts.None? && r.1.parts == Reverse(m.parts)
  {
    (Record(m.id, m.text, path, None, m.image.w, m.image.h, m.boxes, None, m.length), m.(parts := Reverse(m.parts)))
  }

  /** The record of One/main.py loses the parts, whatever they are; the
      rest of it is the record of percato/container.py. */
  lemma ToDictOneDropsParts(m: ImageMeta, path: string)
    ensures ToDictOneAsWritten(m, path).0.parts != Some(Reverse(m.parts))
    ensures ToDict(m, path, false).0 == ToDictOneAsWritten(m, path).0.(parts := Some(Reverse(m.parts)))
  {
  }

  /** `to_dict` of One/main.py emitting the reversed list, as the copy in
      percato/container.py does. */
  function ToDictOne(m: ImageMeta, path: string): (r: (Record, ImageMeta))
    ensures r.0.parts.Some? && Reverse(r.0.parts.value) == m.parts
    ensures r.1.parts == r.0.parts.value
  {
    ReverseReverse(m.parts);
    ToDict(m, path, false)
  }

  /** Where `DetectronMeta` saved its images: `{image_dir}/image{id}.png`
      and `{image_dir}/image{id}_labeled.tif`. */
  datatype FileName = ImageFile(dir: string, id: int) | LabeledFile(dir: string, id: int)

  datatype DetectronMeta = DetectronMeta(base: ImageMeta, fileName: Option<FileName>, labeledFileName: Option<FileName>)

  /** The failure of the constructor as written: `save_image_with_boxes`
      iterates over `masks`, which holds an int. The base constructor has
      already run, so the class counter has moved on to `counter`. */
  datatype ConstructError = MasksNotIterable(counter: Counter)

  /** `DetectronMeta(text, image, parts, boxes, image_dir, save_image,
      save_labeled_image, id)` as written: the constructor passes `id` on by
      position, so it lands in the `masks` slot and the instance takes its
      id from the counter. Saving the labeled image then walks `masks` as a
      list of boxes and raises `TypeError`. The file names exist only when
      the images are saved. */
  function NewDetectronMetaAsWritten(c: Counter, text: string, image: Image, parts: seq<string>, boxes: seq<Box>,
                                     dir: string, saveImage: bool, saveLabeled: bool, id: int)
    : (r: Result<(DetectronMeta, Counter), ConstructError>)
    ensures r.Failure? <==> saveLabeled
    ensures r.Failure? ==> r.error.counter == Counter(c.next + 1)
    ensures r.Success? ==> r.value.0.base.id == c.next && r.value.1 == Counter(c.next + 1) && r.value.0.base.masks == Number(id)
    ensures r.Success? ==> (r.value.0.fileName.Some? <==> saveImage) && r.value.0.labeledFileName.None?
  {
    var (b, c') := NewImageMeta(c, text, image, parts, boxes, Number(id), -1);
    if saveLabeled then Failure(MasksNotIterable(c'))
    else Success((DetectronMeta(b, if saveImage then Some(ImageFile(dir, b.id)) else None, None), c'))
  }

  /** `DetectronMeta.from_imagemeta(meta, ...)` as written. */
  function FromImageMetaAsWritten(c: Counter, meta: ImageMeta, dir: string, saveImage: bool, saveLabeled: bool)
    : (r: Result<(DetectronMeta, Counter), ConstructError>)
    ensures r.Failure? <==> saveLabeled
    ensures r.Success? ==> r.value.0.base.id == c.next && r.value.0.base.text == meta.text && r.value.0.base.boxes == meta.boxes
  {
    NewDetectronMetaAsWritten(c, meta.text, meta.image, meta.parts, meta.boxes, dir, saveImage, saveLabeled, meta.id)
  }

  /** With the default `save_labeled_image=True` the conversion always
      raises. Without it, converting a record with id 5 while the counter
      stands at 7 gives a `DetectronMeta` with id 7: the id of the record is
      dropped, where the corrected conversion keeps it. */
  lemma FromImageMetaDropsId(meta: ImageMeta, dir: string)
    requires meta.id == 5
    ensures FromImageMetaAsWritten(Counter(7), meta, dir, true, true).Failure?
    ensures FromImageMetaAsWritten(Counter(7), meta, dir, true, false).Success?
    ensures FromImageMetaAsWritten(Counter(7), meta, dir, true, false).value.0.base.id == 7
    ensures FromImageMeta(Counter(7), meta, dir, true, false).0.base.id == 5
  {
  }

  /** The constructor with `id` passed by name. */
  function NewDetectronMeta(c: Counter, text: string, image: Image, parts: seq<string>, boxes: seq<Box>,
                            dir: string, saveImage: bool, saveLabeled: bool, id: int)
    : (r: (DetectronMeta, Counter))
    ensures id > 0 ==> r.0.base.id == id && r.1 == c
    ensures id <= 0 ==> r.0.base.id == c.next && r.1 == Counter(c.next + 1)
    ensures r.0.fileName.Some? <==> saveImage
  {
    var (b, c') := NewImageMeta(c, text, image, parts, boxes, MaskList([]), id);
    (DetectronMeta(b, if saveImage then Some(ImageFile(dir, b.id)) else None,
                   if saveLabeled then Some(LabeledFile(dir, b.id)) else None), c')
  }

  /** `from_imagemeta` with the id passed by name: a record's id above zero
      carries over and the counter does not move. */
  function FromImageMeta(c: Counter, meta: ImageMeta, dir: string, saveImage: bool, saveLabeled: bool)
    : (r: (DetectronMeta, Counter))
    ensures meta.id > 0 ==> r.0.base.id == meta.id && r.1 == c
    ensures r.0.base.text == meta.text && r.0.base.parts == meta.parts && r.0.base.boxes == meta.boxes
  {
    NewDetectronMeta(c, meta.text, meta.image, meta.parts, meta.boxes, dir, saveImage, saveLabeled, meta.id)
  }

  /** The class list `DetectronMeta._letters` after `extend` with the parts
      not yet in it: `extend` appends one by one, so a part repeated in the
      same call is added once. */
  function ExtendLetters(letters: seq<string>, parts: seq<string>): (r: seq<string>)
    ensures |letters| <= |r| && r[..|letters|] == letters
    ensures forall p :: p in r <==> p in letters || p in parts
    ensures Distinct(letters) ==> Distinct(r)
    decreases |parts|
  {
    if |parts| == 0 then letters
    else
      var next := if parts[0] in letters then letters else letters + [parts[0]];
      var r := ExtendLetters(next, parts[1..]);
      assert r[..|letters|] == next[..|next|][..|letters|];
      assert forall p :: p in parts <==> p == parts[0] || p in parts[1..];
      r
  }

  /** Position of `p` in `letters`: the value `{item: i for i, item in
      enumerate(letters)}` maps it to (the last position when it repeats). */
  function LastIndex(letters: seq<string>, p: string): (r: Option<nat>)
    ensures r.None? <==> p !in letters
    ensures r.Some? ==> (r.value < |letters| && letters[r.value] == p
                         && forall j :: r.value < j < |letters| ==> letters[j] != p)
  {
    if |letters| == 0 then None
    else if letters[|letters| - 1] == p then Some(|letters| - 1)
    else LastIndex(letters[..|letters| - 1], p)
  }

  /** The letter-id map built from the class list. */
  function IdMap(letters: seq<string>): (r: map<string, nat>)
    ensures forall p :: p in r <==> p in letters
    ensures forall p :: p in r ==> r[p] < |letters| && letters[r[p]] == p
  {
    map p | p in letters :: LastIndex(letters, p).value
  }

  /** Automatic ids: the class list only grows, a letter already in it keeps
      its id, and every part of the call gets the id of its position. */
  lemma AutoIdsKeepOrder(letters: seq<string>, parts: seq<string>)
    requires Distinct(letters)
    ensures var l' := ExtendLetters(letters, parts);
      var ids := IdMap(l');
      (forall i :: 0 <= i < |letters| ==> ids[letters[i]] == i)
      && (forall p :: p in parts ==> p in ids && l'[ids[p]] == p)
  {
    var l' := ExtendLetters(letters, parts);
    var ids := IdMap(l');
    forall i | 0 <= i < |letters|
      ensures ids[letters[i]] == i
    {
      assert l'[i] == letters[i];
    }
  }

  /** One entry of `annotations`. `bbox_mode` is always 0. */
  datatype Annotation = Annotation(bbox: Box, bboxMode: nat, categoryId: int)

  datatype DetectronRecord = DetectronRecord(fileName: FileName, height: nat, width: nat, imageId: int,
                                             annotations: seq<Annotation>)

  datatype DetectronError = KeyError(part: string) | NoFileName

  /** The annotation list over `zip(boxes, parts)`: it stops at the shorter
      list, and a part missing from the map is a `KeyError`. */
  function Annotations(boxes: seq<Box>, parts: seq<string>, ids: map<string, int>)
    : (r: Result<seq<Annotation>, DetectronError>)
    ensures r.Failure? <==> exists i :: 0 <= i < |boxes| && i < |parts| && parts[i] !in ids
    ensures r.Success? ==> |r.value| == if |boxes| < |parts| then |boxes| else |parts|
    ensures r.Success? ==> forall i :: 0 <= i < |r.value| ==> r.value[i] == Annotation(boxes[i], 0, ids[parts[i]])
    decreases |boxes|
  {
    if |boxes| == 0 || |parts| == 0 then Success([])
    else if parts[0] !in ids then Failure(KeyError(parts[0]))
    else
      var rest := Annotations(boxes[1..], parts[1..], ids);
      assert forall i :: 1 <= i < |boxes| && i < |parts| ==> boxes[1..][i - 1] == boxes[i] && parts[1..][i - 1] == parts[i];
      if rest.Failure? then
        Failure(rest.error)
      else
        var r := [Annotation(boxes[0], 0, ids[parts[0]])] + rest.value;
        Success(r)
  }

  /** `DetectronMeta.to_dict(letter_id_map)`: without a map, the class list
      is extended with the parts first and the map is built from it; the
      annotations are built next, and then the record, which reads the file
      name. The class list after the call is returned whatever the
      outcome. */
  function DetectronToDict(m: DetectronMeta, letterIdMap: Option<map<string, int>>, letters: seq<string>)
    : (r: (Result<DetectronRecord, DetectronError>, seq<string>))
    ensures letterIdMap.Some? ==> r.1 == letters
    ensures letterIdMap.None? ==> r.1 == ExtendLetters(letters, m.base.parts)
    ensures letterIdMap.None? && m.fileName.Some? ==> r.0.Success?
    ensures r.0.Success? ==> (r.0.value.imageId == m.base.id && m.fileName == Some(r.0.value.fileName)
                              && r.0.value.height == m.base.image.h && r.0.value.width == m.base.image.w)
  {
    var letters' := if letterIdMap.None? then ExtendLetters(letters, m.base.parts) else letters;
    var ids: map<string, int> := if letterIdMap.None? then IdMap(letters') else letterIdMap.value;
    var annotations := Annotations(m.base.boxes, m.base.parts, ids);
    if annotations.Failure? then (Failure(annotations.error), letters')
    else if m.fileName.None? then (Failure(NoFileName), letters')
    else (Success(DetectronRecord(m.fileName.value, m.base.image.h, m.base.image.w, m.base.id, annotations.value)),
          letters')
  }

  /** With automatic ids every annotation's category is the position of its
      part in the class list. */
  lemma AutoCategoriesArePositions(m: DetectronMeta, letters: seq<string>)
    requires m.fileName.Some?
    ensures var (r, l') := DetectronToDict(m, None, letters);
      r.Success? && forall i :: 0 <= i < |r.value.annotations| ==>
        var a := r.value.annotations[i];
        0 <= a.categoryId < |l'| && l'[a.categoryId] == m.base.parts[i] && a.bbox == m.base.boxes[i] && a.bboxMode == 0
  {
  }

  /** `",\n".join(docs)`. */
  function Join(docs: seq<string>, sep: string): string
  {
    if |docs| == 0 then [] else if |docs| == 1 then docs[0] else docs[0] + sep + Join(docs[1..], sep)
  }

  /** The chunk the generation loop writes for document `i` of `batch`, as
      written: the first opens the array, the last closes it, and the rest
      are separated by `",\n"`; with one document the first branch wins and
      the array is never closed. */
  function ChunkAsWritten(i: nat, batch: nat, js: string): string
  {
    if i == 0 then "[" + js
    else if i == batch - 1 then ",\n" + js + "]"
    else ",\n" + js
  }

  /** The file the loop writes, chunk after chunk: with the chunks as
      written, or with the single-document case closed (`fixed`). */
  function FrameFrom(docs: seq<string>, i: nat, fixed: bool): string
    requires i <= |docs|
    decreases |docs| - i
  {
    if i == |docs| then []
    else (if fixed then Chunk(i, |docs|, docs[i]) else ChunkAsWritten(i, |docs|, docs[i])) + FrameFrom(docs, i + 1, fixed)
  }

  function FrameAsWritten(docs: seq<string>): string
  {
    FrameFrom(docs, 0, false)
  }

  /** From document `i` on, the middle and closing chunks write the
      separator before each document and close the array after the last. */
  lemma {:induction false} TailFrame(docs: seq<string>, i: nat, fixed: bool)
    requires 1 <= i < |docs|
    ensures FrameFrom(docs, i, fixed) == ",\n" + Join(docs[i..], ",\n") + "]"
    decreases |docs| - i
  {
    var sep := ",\n";
    if i == |docs| - 1 {
      assert docs[i..] == [docs[i]];
      assert FrameFrom(docs, i + 1, fixed) == [];
    } else {
      var rest := Join(docs[i + 1..], sep);
      assert FrameFrom(docs, i, fixed) == (sep + docs[i]) + FrameFrom(docs, i + 1, fixed);
      TailFrame(docs, i + 1, fixed);
      assert docs[i..][1..] == docs[i + 1..];
      assert Join(docs[i..], sep) == docs[i] + sep + rest;
      AppendAssoc(sep, docs[i], sep, rest, "]");
    }
  }

  lemma FrameAsWrittenMany(docs: seq<string>)
    requires |docs| >= 2
    ensures FrameAsWritten(docs) == "[" + Join(docs, ",\n") + "]"
  {
    var sep := ",\n";
    var tail := FrameFrom(docs, 1, false);
    var rest := Join(docs[1..], sep);
    assert FrameAsWritten(docs) == ("[" + docs[0]) + tail;
    TailFrame(docs, 1, false);
    assert tail == sep + rest + "]";
    assert Join(docs, sep) == docs[0] + sep + rest;
    Seqs.AppendAssoc("[", docs[0], sep, rest, "]");
  }

  /** Two documents or more make a bracketed, `",\n"`-separated array; a
      single document is written as `"["` and the document, with no closing
      bracket. */
  lemma FrameAsWrittenShape(docs: seq<string>)
    ensures |docs| >= 2 ==> FrameAsWritten(docs) == "[" + Join(docs, ",\n") + "]"
    ensures |docs| == 1 ==> FrameAsWritten(docs) == "[" + docs[0]
  {
    if |docs| >= 2 {
      FrameAsWrittenMany(docs);
    } else if |docs| == 1 {
      assert FrameFrom(docs, 1, false) == [];
    }
  }

  /** The chunk with the one-document case closing the array as well. */
  function Chunk(i: nat, batch: nat, js: string): string
  {
    if i == 0 && batch == 1 then "[" + js + "]"
    else ChunkAsWritten(i, batch, js)
  }

  function Frame(docs: seq<string>): string
  {
    FrameFrom(docs, 0, true)
  }

  /** Every non-empty batch is written as one bracketed JSON array. */
  lemma FrameIsArray(docs: seq<string>)
    requires |docs| >= 1
    ensures Frame(docs) == "[" + Join(docs, ",\n") + "]"
  {
    if |docs| >= 2 {
      TailFrame(docs, 1, true);
    } else {
      assert FrameFrom(docs, 1, true) == [];
    }
  }
}
