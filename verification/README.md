# PerCato generator core in Dafny

PerCato generates labelled images of Persian text for OCR training. Given a
word, it performs these steps:

1. It shapes the word's letters into their positional glyph forms: isolated, initial, medial or final.
2. It splits the shaped string into labelled parts. A configured exception word, such as the ligature `لا`, stays one part.
3. It measures where each part starts in the rendered image.
4. It shrinks each character's column band to a tight box. It does this by judging ink on the box edges: a connected piece of ink either belongs to the character or spills over from a neighbour.
5. It packs text, parts, boxes and (optionally) masks into an `ImageMeta` record. It writes the records as a JSON array.

A companion script post-processes detector output. It sorts a word's detections by x position, maps category ids back to glyphs, and filters by score.

The repository holds several near-identical copies of this logic. The
copies differ in small ways, and the model keeps those differences
explicit:

- textutils.py is the current version.
- One/main.py and GenerDat/textutil.py are variants whose good/bad pixel sets are shared by all characters of a word.
- textutil.py is the older version. It has 4-connected components, a clipped pixel rule, a backward split and a `reduce`-based width list.

The modules follow the program's structure:

| module | what it models |
|---|---|
| `Wrappers`, `Seqs` | `Option`/`Result`, and sequence helpers (concatenation, reversal, sums) |
| `Shaping` | `PersianLetter.get_connected_form`/`can_connect`, `CharacterManager.get_letter_form`, `freeze_letters`/`fix_letters`, the form sets and form map |
| `Splitting` | forward `get_characters` with `find_exceptions` span merging |
| `TextUtil` | textutil.py: `_search_exception_backward`, backward `get_characters`, `is_joined`, `reduce`, `get_words_of_length` |
| `Widths` | `get_character_widths` of both generations, with the renderer's width measure as a parameter |
| `Raster` | the binary image as a set of ink pixels, boxes, `get_mask`, the column-slice ink count |
| `Components` | connected components as the least closed set (the contract of `cv2.connectedComponents`), and the BFS `get_connected_pixels` proved equal to the 4-connected one |
| `Classify` | `check_pixel`: extents, the three-stage verdict, the pixels it marks |
| `Segmenter` | `get_boxes`/`get_rectangles` with `complex_condition` and the four edge loops, for all three variants |
| `Rle` | `binary_mask_to_rle` (COCO uncompressed RLE), `binary_rle`, `binary_rle_decode` |
| `Loose` | `loose`/`loose_boxes` on the integer path |
| `Meta` | `ImageMeta` id counter and `to_dict` (four copies), `DetectronMeta` annotations and automatic label ids, the JSON-array framing |
| `Predict` | percato/predict.py: `LABEL_MAP`, `search_keys_by_val`, `show_word`, `sort_word`, `get_words` |
| `Assembler` | `create_meta_image` of both generations |

The model makes these assumptions:

- Letter forms are single characters. The letter table is not part of this model; it is an input map from a character to its four optional forms. With single-character forms, a shaped string lines up index by index with the unshaped one.
- An absent form is a JSON `null` in the table, which is `None` in Python and in the model. The table holds no form that is the empty string (see "## Left out").
- The exception words are a Python `set`, so their iteration order is unspecified. The model takes them as an ordered list and matches them literally. At a position, the first listed word that matches wins. This is the order of regex alternation in `"|".join(...)` for words without regex metacharacters; the source joins the words unescaped.

Two facts about the code that are easy to misread:

- The `n` field of a record is `len(parts)` at construction, not the number of boxes.
- The "Given space is empty" error is raised when the column slice holds fewer than four ink pixels, not only when it holds none.

## Model

| member | source | states |
|---|---|---|
| Shaping.ConnectedForm | percato/characterutil.py:45-52 | the chosen glyph is always one of the letter's own four forms |
| Shaping.CanConnect | percato/characterutil.py:54-59 | a side is refused exactly when it needs a form the letter lacks: BACK needs the final form, FRONT the initial one |
| Shaping.CanConnectBySide | percato/characterutil.py:54-59 | connecting on both sides is allowed iff each side is; BACK iff a final form exists, FRONT iff an initial one does; no side is always allowed |
| Shaping.ConnectedFormPriority | GenerDat/characterutil.py:40-47 | both sides give the medial form when there is one and otherwise the final form; back alone gives final; front alone gives initial when present, else isolated; no side gives isolated |
| Shaping.ConnectablePresent | percato/characterutil.py:54-59 | a side the letter can connect on never yields an absent form (given an isolated form); a back side yields final or medial |
| Shaping.JoinFlag | percato/characterutil.py:139-153 | FRONT is set iff a known successor exists, the letter has an initial form and the successor a final one; BACK is the mirror image with the predecessor |
| Shaping.GetLetterForm | percato/characterutil.py:139-154 | the glyph is one of the letter's four forms, present whenever the isolated form is, and the isolated form when neither neighbour is a known letter |
| Shaping.LetterFormPresent | percato/characterutil.py:139-154 | a known letter with an isolated form always gets a glyph: BACK implies a final form exists, FRONT implies an initial form exists |
| Shaping.JoinedAfterPredecessor | One/main.py:221-227 | a letter with a final form after a letter that can join forward is shaped final, or medial when it also joins forward |
| Shaping.JoinGlyphs | percato/characterutil.py:137 | joining succeeds iff no glyph is absent; then it keeps length and order; a failure names the first absent glyph |
| Shaping.FreezeLetters | percato/characterutil.py:129-137 | one glyph per input character, in order: known letters get their positional form, unknown ones pass through; it fails iff an unknown letter meets `throw_unknown` or a known letter lacks the form it needs; an unknown-letter failure names the first unknown character |
| Shaping.FreezeFailsOnlyOnUnknown | GenerDat/characterutil.py:92-100 | when every letter has an isolated form, shaping fails exactly when `throw_unknown` is set and some character is unknown |
| Shaping.FilteredWordsAreKnown | percato/characterutil.py:82-84 | words spelled from the table's own letters never raise the unknown-letter error |
| Shaping.PersianLetterForms | percato/characterutil.py:86-94 | a glyph is in the set iff it is a present form of some letter of the table |
| Shaping.FormSet | percato/characterutil.py:109-114 | a glyph is in a category's set iff some letter has it as that form |
| Shaping.FormLetterMap | percato/characterutil.py:105-116 | the map has exactly the four categories, each mapped to its form set |
| Shaping.FormsAreUnionOfFormMap | percato/characterutil.py:86-116 | the union of the four form sets is exactly the set of all forms |
| Shaping.GetFormOfLetter | percato/characterutil.py:96-103 | non-single-character input is rejected; otherwise the first category in isolated, initial, final, medial order whose set holds the glyph, or -1 iff none does; -1 raises exactly under `throw_unknown` |
| Shaping.ShapedGlyphsHaveAForm | percato/characterutil.py:96-103 | every glyph that shaping produces for a known letter has a form category |
| Splitting.MatchFrom | textutils.py:213 | the result is the first listed exception word occurring at the position, and none is reported only when no word occurs there |
| Splitting.ScanFrom | textutils.py:213 | the matched spans lie in the text, in ascending order, without overlap |
| Splitting.ScanSpansMatch | textutils.py:213 | every span is a match of the first listed word occurring at its start |
| Splitting.ScanComplete | textutils.py:213 | every position where some exception word occurs is covered by a span, so matches are leftmost and non-overlapping |
| Splitting.FindExceptions | textutils.py:210-214 | no exceptions give no spans; the spans are ordered, disjoint, within the text, and each covers an exception word |
| Splitting.FindExceptionsComplete | textutils.py:210-214 | no occurrence of an exception word is left uncovered |
| Splitting.ApplySpansIsGroup | textutils.py:184-186 | merging the spans from last to first equals grouping them from left to right, so earlier indices stay valid |
| Splitting.GroupConcat | textutils.py:184-186 | merging spans never changes the concatenation of the parts |
| Splitting.Singletons | textutils.py:181 | `list(text)` has one part per character |
| Splitting.SingletonsConcat | textutils.py:181 | joining the single-character parts gives back the text |
| Splitting.GetCharacters | textutils.py:179-188 | it fails only when shaping is requested and fails; on success the parts concatenate to the shaped (or raw) text and are its characters with each exception span collapsed to one part |
| Splitting.GroupParts | textutils.py:184-186 | every part is a single character or an exception word |
| Splitting.RawPartsAreLettersOrExceptions | GenerDat/textutil.py:165-174 | without shaping the call cannot fail, its parts concatenate to the raw text, and each is one character or an exception word |
| Splitting.GetCharactersGenerDatAsWritten | GenerDat/textutil.py:165-174 | as written it fails exactly when shaping is requested, since GenerDat's `CharacterManager` has no `freeze_letters`; otherwise the parts concatenate to the raw text and each is one character or an exception word |
| Splitting.GenerDatAsWrittenAgainstCorrected | GenerDat/textutil.py:165-174 | without shaping the as-written call gives the corrected parts; with shaping requested it fails even on the empty text, which the corrected call splits into no parts |
| TextUtil.SearchExceptionBackward | textutil.py:215-221 | a non-empty result is an exception word ending exactly at `end`, and no earlier-listed word ends there; an empty result means every listed word ending there is, or comes after, an empty listed word, so none ends there when no empty word is listed |
| TextUtil.Step | textutil.py:178-179 | the step back is between 1 and `end` |
| TextUtil.StepIsSearch | textutil.py:178-179 | the step is the length of the found exception, or 1 when none is found |
| TextUtil.BackwardFrom | textutil.py:174-182 | reversing the parts and joining them gives the prefix; each part is one character or an exception word |
| TextUtil.GetCharacters | textutil.py:174-182 | the parts come out last first, and concatenating the reversed list reproduces the text exactly |
| TextUtil.Cuts | textutil.py:198-213 | the kept prefix lengths strictly decrease, and none ends in a space |
| TextUtil.CutsSkipOnlySpaces | textutil.py:202-205 | only spaces are skipped: the text past the first kept prefix is blank |
| TextUtil.Reduce | textutil.py:198-213 | one item per kept prefix: the prefix itself, plus a trailing joiner exactly when `is_joined` holds at the cut |
| TextUtil.IsJoined | textutil.py:224-236 | both strings non-empty, the last character of the first joinable, the first of the second not non-joinable |
| TextUtil.JoinedAtCut | textutil.py:224-236 | at a cut of the text the halves are joined iff the cut is strictly inside, the letter before it is joinable and the character after it is not non-joinable; never before a space or at either end |
| TextUtil.CutsFollowParts | textutil.py:198-213 | for a text without spaces, each cut of `reduce` is where a part of the backward split ends, so the two lists line up |
| TextUtil.LettersCardinality | textutil.py:277 | a word has as many distinct letters as characters iff its characters are pairwise different |
| TextUtil.Words | textutil.py:275 | exactly the words of the given length over the letters |
| TextUtil.WordsOfLength | textutil.py:274-279 | exactly the words of that length over the letters; with `repetition` set, only those with pairwise different letters |
| Widths.WidthsFrom | textutils.py:202-208 | one entry per item (one for no items), the last is `width - 1`, and each earlier one is `width + 1` minus the size of the next item |
| Widths.Prefixes | textutils.py:197-199 | entry `i` is the concatenation of the first `i + 1` parts |
| Widths.ReversedPrefixes | textutils.py:200 | entry `m` of the reversed prefix list is the concatenation of all parts but the last `m` |
| Widths.WidthsOfParts | textutils.py:196-208 | one entry per part, the last `width - 1`, entry `m` is `width + 1` minus the size of the prefix without its last `m + 1` parts |
| Widths.CharacterWidths | textutils.py:190-208 | short texts give the single entry `size(text) - 1`; otherwise it fails exactly when shaping fails, and gives one entry per part ending in `size(text) - 1` |
| Widths.WidthsAscend | textutils.py:190-208 | if longer prefixes never render narrower, the separators are non-decreasing |
| Widths.CharacterWidthsOlder | textutil.py:184-196 | fewer than two non-joiner characters give one entry; otherwise one entry per `reduce` item, ending in `size(text) - 1` |
| Widths.OlderWidthsMatchParts | textutil.py:184-213 | for a text without spaces there are as many older widths as backward-split parts |
| Raster.BoxInk | textutils.py:254-255 | exactly the ink pixels inside the inclusive box |
| Raster.SliceBound | textutils.py:147 | a slice bound within the axis is kept, and none exceeds the axis length |
| Raster.ColumnInk | textutils.py:147 | exactly the ink pixels whose column lies in the sliced range `[x0, x1)` |
| Raster.GetMask | textutils.py:252-256 | the mask has the image's shape, and a cell is set iff it lies in the inclusive box and has ink |
| Raster.MaskIsBoxInk | One/main.py:428-432 | for a box in the image, the set cells are exactly the box's ink |
| Raster.MaskWithinInk | GenerDat/textutil.py:203-207 | a set cell always has ink |
| Components.Closure | textutils.py:87-88 | the closure contains its seed and stays within the ink |
| Components.ClosureClosed | textutils.py:87-88 | no adjacent ink pixel is left outside the closure |
| Components.ClosureLeast | textutils.py:87-88 | the closure is contained in every closed ink set that holds the seed, so it is the component |
| Components.Component | textutils.py:93 | the component through a pixel holds the pixel, lies in the ink and is closed under adjacency |
| Components.ComponentOfMember | textutils.py:93 | every member of a component has that same component, so components partition the ink |
| Components.NeighboursAreAdjacent | textutil.py:163 | the four candidates are exactly the 4-adjacent pixels |
| Components.VisitNeighbours | textutil.py:162-167 | one visit keeps the found list as a prefix, keeps it duplicate-free and connected, and adds every in-bounds ink neighbour |
| Components.ClosedSearchIsComponent | textutil.py:161-169 | a finished search list holds exactly the start's 4-connected component |
| Components.ConnectedPixels | textutil.py:157-169 | the BFS result starts with the start pixel, has no duplicates, and holds exactly its 4-connected component |
| Classify.LowEnd | textutils.py:103-104 | the least coordinate of a non-empty piece on an axis |
| Classify.HighEnd | textutils.py:103-104 | the greatest coordinate of a non-empty piece on an axis |
| Classify.Extent | textutils.py:104 | `max + 1 - min`: attained by two pixels and bounding every pair |
| Classify.RatioTest | textutils.py:111 | `ns / (ns + ni) > 0.1` holds exactly when `9 * ns > ni` |
| Classify.VerdictInIntegers | textutils.py:107-112 | kept iff nearly the whole component lies in the window, or the piece is not small and holds more than 15 pixels or a ninth of the component |
| Classify.Verdict | textutils.py:102-112 | the three-stage decision on the counts and extents, with the windowed and the clipped rule (textutil.py:84-98) side by side; its meaning is stated by Classify.VerdictInIntegers |
| Classify.FlatPieceIsNotSmall | textutils.py:109 | the `< (4, 4)` test is lexicographic: a 5-by-1 piece is not small and a 3-by-9 piece is |
| Classify.Seg | textutils.py:95 | exactly the component's pixels inside the window |
| Classify.CheckPixel | textutils.py:91-113 | the marked pixels contain the judged pixel and are window ink: the windowed component (current rule) or the window-clipped whole component (older rule) |
| Classify.CheckPixelVerdict | textutils.py:95-112 | with `C` the component through the pixel and `S` its part in the window, `|S| <= |C|`, and the component is kept iff `|C| - |S| < 3`, or the pieces are not small and `9 * |S| > |C|` or `|S| > 15` |
| Classify.WholeComponentIsGood | textutils.py:107-108 | a component lying wholly inside the window is always judged good |
| Segmenter.Line | textutils.py:120-122 | every pixel walked lies in the box |
| Segmenter.LineIsEdge | textutils.py:120-122 | the walked pixels are exactly those on the edge line |
| Segmenter.ScanLine | textutils.py:125-137 | a scan only adds to the good and bad sets, and only ink of the current box |
| Segmenter.ScanMoves | textutils.py:125-137 | an edge moves only when all ink on its line is bad, and then no pixel became good |
| Segmenter.ScanStops | textutils.py:129-134 | an edge stops only at an ink pixel of its line that is good and not bad |
| Segmenter.Tighten | textutils.py:149-156 | the box stays in the image and inside its start, only the edge's own coordinate moves, the sets grow within the box's ink, and the only failure is crossing the opposite edge |
| Segmenter.TightenCutsOnlyBad | textutils.py:149-156 | every ink pixel the edge moved past is in the bad set |
| Segmenter.TightenStopsAtGood | textutils.py:149-156 | the final edge line holds an ink pixel that is good and not bad |
| Segmenter.SegmentCharacter | textutils.py:140-157 | the empty error is raised iff the columns `[x0, x1)` hold fewer than 4 ink pixels; on success the box lies in the image inside its start band and the sets grow within the band's ink |
| Segmenter.SegmentKeepsGoodDropsBad | textutils.py:145-157 | the final box drops only bad ink of its band and keeps at least one good ink pixel |
| Segmenter.Step | One/main.py:352-368 | the box lies in the image inside the band of its widths |
| Segmenter.BoxesFrom | textutils.py:139-158 | one box per remaining band, in order, each in the image and inside its own band |
| Segmenter.GetBoxes | textutils.py:76-158 | exactly one box per width, box `k` inside the band from width `k - 1` (0 for the first) to width `k` |
| Segmenter.StepReset | textutils.py:145-146 | with the sets reset per character, the step ignores the sets it is handed |
| Segmenter.ResetBoxesAreIndependent | textutil.py:75-79 | with reset sets every box equals what its band gives on its own, from empty sets |
| Segmenter.BoxesHoldInk | GenerDat/textutil.py:127-143 | every box holds at least one ink pixel, in the shared-set variant too |
| Rle.RunLengths | textutils.py:245 | the run lengths are positive and empty only for the empty sequence |
| Rle.Decode | textutils.py:242-249 | the COCO reading of a count list: alternating runs of clear and set cells starting with clear ones, `sum(counts)` cells in all; the inverse of the counts by Rle.MaskCountsRoundTrip |
| Rle.MaskCounts | textutils.py:245-248 | a leading 0 when the first cell is set, then one count per group of equal cells; decoded back by Rle.MaskCountsRoundTrip |
| Rle.RunLengthsExpand | textutils.py:245-248 | expanding the run lengths from the first value reproduces the sequence |
| Rle.FortranOrder | textutils.py:245 | the column-major flattening has `w * h` cells |
| Rle.FortranIndex | textutils.py:245 | cell `(x, y)` of the mask sits at position `y * w + x` of the flattening |
| Rle.BinaryMaskToRle | textutils.py:242-249 | the size is the mask's shape, every count after the first is positive, and a leading 0 is followed by a positive run |
| Rle.MaskCountsRoundTrip | textutils.py:244-248 | decoding the counts of a flat mask gives it back |
| Rle.BinaryMaskToRleRoundTrip | textutils.py:242-249 | decoding the COCO counts reproduces the column-major flattening of the mask |
| Rle.BinaryRle | textutil.py:246-260 | the runs alternate zeros and ones starting with zeros, have even length, sum to the input length, and decode back to the input |
| Rle.BinaryRleDecodeAsWritten | textutil.py:263-271 | an odd count list fails; otherwise `sum(counts)` cells, all zero |
| Rle.AsWrittenDecodeErasesOnes | textutil.py:268-270 | the as-written decoder returns all zeros for any encoding, so it inverts the encoder only on all-zero input |
| Rle.AsWrittenDecodeCounterexample | textutil.py:270 | the counts `[0, 1]` encode one set cell but decode as written to a zero |
| Rle.BinaryRleDecode | textutil.py:263-271 | an odd count list fails; otherwise `sum(counts)` cells |
| Rle.BinaryRleDecodeIsDecode | textutil.py:266-270 | the corrected decoder alternates zero and one runs, the COCO reading of the counts |
| Rle.BinaryRleRoundTrip | textutil.py:246-271 | encoding then decoding returns the input |
| Loose.Clip | textutils.py:219-220 | the value clamped to `[0, h]` |
| Loose.LooseWith | textutils.py:216-230 | a margin that is not an int raises; otherwise the rows stay within the bound, and a non-negative margin only widens them and keeps them ordered |
| Loose.Loose | textutils.py:216-230 | it raises exactly for a margin that is not an int; otherwise neither loosened row passes the image's row count |
| Loose.LooseAsWritten | textutils.py:216-230 | a non-int margin raises; on an image shape both rows are clipped to the number of columns |
| Loose.LooseAsWrittenPassesRows | textutils.py:217 | on a 30-row, 100-column image the rows 5..25 loosen to 0..35 as written, past the last row, and to 0..30 when clipped to the rows |
| Loose.LooseBoxesWith | textutils.py:232-239 | one box per input box, in order, columns kept and rows loosened; it raises only for a non-int margin with at least one box |
| Loose.LooseBoxesAsWritten | textutils.py:232-239 | one box per input box, columns kept, rows within the number of columns of the image shape; raises only for a non-int margin with boxes |
| Loose.LooseBoxes | textutils.py:232-239 | the same with the rows within the number of rows |
| Loose.LooseBoxesContain | textutils.py:232-239 | with a non-negative margin each box lies inside its loosened box, which stays within the image's rows |
| Loose.ZeroMarginIsIdentity | textutils.py:222-224 | a zero margin returns boxes within the rows unchanged |
| Meta.NewImageMeta | percato/container.py:20-31 | the fields are stored as given and `length` is the part count; an id above zero is kept and leaves the counter alone; otherwise (0 included) the counter's value is taken and the counter advances |
| Meta.AutoIdsIncrease | GenerDat/container.py:25-29 | over a run of constructions explicit ids are kept, and automatic ids lie in the counter's range and strictly increase |
| Meta.ToDict | percato/container.py:65-84 | the stored parts are reversed in place and emitted reversed; the `masks` key is present iff masks are exported; `n` is the construction-time length |
| Meta.MasksKeyOnly | percato/container.py:78-83 | the two branches differ in the `masks` key only |
| Meta.ToDictTwice | percato/container.py:77 | a second call restores the original order of the parts and emits them as first stored |
| Meta.LengthIsConstructionLength | percato/container.py:26 | `n` stays the part count at construction, however often `to_dict` runs |
| Meta.ToDictGenerDat | GenerDat/container.py:63-77 | parts and boxes are emitted as stored; height is the row count and width the column count |
| Meta.ToDictOlderAsWritten | textutil.py:40-44 | width and height come out swapped: width is the row count, height the column count |
| Meta.ToDictOlderSwapsSides | textutil.py:41 | for a non-square image the older width is wrong, and swapping back gives the GenerDat record |
| Meta.ToDictOneAsWritten | One/main.py:73-87 | the record's parts are `None`, while the stored parts are reversed in place |
| Meta.ToDictOneDropsParts | One/main.py:85 | the record lacks the reversed parts the percato copy emits, and differs from it in that field only |
| Meta.ToDictOne | One/main.py:73-87 | the emitted parts reversed are the stored parts, and equal the parts kept afterwards |
| Meta.NewDetectronMetaAsWritten | percato/container.py:89-96 | it raises iff the labeled image is saved, since `save_image_with_boxes` (percato/container.py:57) iterates the int in `masks`; the counter is consumed either way; otherwise the id comes from the counter, `masks` holds the id, and an image file name exists iff images are saved |
| Meta.FromImageMetaAsWritten | percato/container.py:98-101 | it raises iff the labeled image is saved; otherwise the converted meta keeps text and boxes but takes the counter's id |
| Meta.FromImageMetaDropsId | percato/container.py:98-101 | with the default `save_labeled_image=True` the conversion raises; without it a meta with id 5 under counter 7 converts to id 7, where the corrected conversion keeps 5 |
| Meta.NewDetectronMeta | percato/container.py:89-96 | with the id passed by keyword, an id above zero is kept and otherwise the counter is used |
| Meta.FromImageMeta | percato/container.py:98-101 | the converted meta keeps the text, parts and boxes, and an id above zero carries over without consuming the counter |
| Meta.ExtendLetters | percato/container.py:109 | the letter list only grows, keeps its old entries in place, gains exactly the new parts, and stays duplicate-free |
| Meta.LastIndex | percato/container.py:110 | none iff the letter is absent; otherwise the last position holding it |
| Meta.IdMap | percato/container.py:110 | the map's keys are the letters, and each maps to a position holding it |
| Meta.AutoIdsKeepOrder | percato/container.py:106-110 | after extension existing letters keep their index, and every part has an id equal to its position in the list |
| Meta.Annotations | percato/container.py:112-115 | one annotation per box/part pair up to the shorter list, in order, with mode 0 and the part's category; it fails iff some paired part has no id |
| Meta.DetectronToDict | percato/container.py:105-118 | a given map leaves the letter list alone; without one the list is extended and the record cannot fail when a file name exists; the record carries the meta's id and file name |
| Meta.AutoCategoriesArePositions | percato/container.py:106-115 | with automatic ids every annotation's category is the part's position in the letter list |
| Meta.FrameAsWrittenMany | One/main.py:453-462 | for two or more records the written text is a bracketed, comma-newline-joined array |
| Meta.ChunkAsWritten | One/main.py:454-461 | chunk 0 opens the array, the chunk of index `batch - 1` closes it, every other chunk is a separator and the record; stated for the whole file by Meta.FrameAsWrittenMany and Meta.FrameAsWrittenShape |
| Meta.FrameAsWritten | One/main.py:453-462 | the file written chunk after chunk, as written; see Meta.FrameAsWrittenMany and Meta.FrameAsWrittenShape |
| Meta.FrameAsWrittenShape | One/main.py:454-457 | with a single record the file is `"[" + record` and is never closed |
| Meta.FrameIsArray | One/main.py:453-462 | the corrected framing writes a closed array for every non-empty batch |
| Meta.Chunk | One/main.py:454-461 | as written, except that a single record is both opened and closed; see Meta.FrameIsArray |
| Meta.Frame | One/main.py:453-462 | the corrected file, a closed array for every non-empty batch by Meta.FrameIsArray |
| Predict.LabelItems | percato/predict.py:3-13 | 66 entries whose values are exactly their positions 0..65 |
| Predict.SearchKeysByVal | percato/predict.py:33-39 | none iff no entry has the value; otherwise the key of the last entry with it |
| Predict.LabelSearchIsInverse | percato/predict.py:3-13 | on the label map the search returns the key of value `v` for `0 <= v < 66` and fails otherwise |
| Predict.LabelLookup | percato/predict.py:33-39 | the search over the label map is the inverse of the map, for all values at once |
| Predict.Confident | percato/predict.py:40-43 | an entry is kept iff its score exceeds 0.7 |
| Predict.ConfidentCounts | percato/predict.py:40-43 | every entry scoring above 0.7 is kept as often as the word has it, and no other entry is |
| Predict.ConfidentSplit | percato/predict.py:40-43 | filtering a concatenation filters each half and joins the results, so the kept entries stay in input order |
| Predict.ShowWord | percato/predict.py:31-47 | it fails iff a confident entry's category is unmapped; otherwise one glyph per confident entry, in order |
| Predict.GlyphsSpec | percato/predict.py:42-46 | each glyph is the inverse lookup of its entry's category, in order |
| Predict.Swap | percato/predict.py:24 | a swap keeps the multiset, and when the two x values differ it keeps the order within every equal-x group |
| Predict.SwapKeepsGroups | percato/predict.py:23-24 | swapping two entries of different x keeps every equal-x group's order |
| Predict.AtXReverse | percato/predict.py:28 | reversing a list reverses each equal-x group |
| Predict.BubblePass | percato/predict.py:19-25 | a pass keeps the multiset and the equal-x groups, sorts one more tail position, and a swap-free pass leaves the list ascending |
| Predict.QuietPassSorts | percato/predict.py:26-27 | an early exit happens only on an already ascending list |
| Predict.SortWord | percato/predict.py:16-28 | the result is a permutation of the input, non-increasing in x, with entries of equal x in reverse of their input order |
| Predict.OfImage | percato/predict.py:62-64 | an entry is selected iff it belongs to the given image |
| Predict.OfImageCounts | percato/predict.py:62-64 | every entry of the image is selected as often as the dump has it, and no other entry is |
| Predict.OfImageSplit | percato/predict.py:62-64 | selecting from a concatenation selects from each half and joins the results, so the selected entries stay in input order |
| Predict.AppendImage | percato/predict.py:62-64 | the inner loop for word `n`; stated by Predict.AppendInRange and Predict.AppendPastEnd |
| Predict.AppendInRange | percato/predict.py:61-64 | for an existing word slot the image's entries are appended to it |
| Predict.AppendPastEnd | percato/predict.py:64 | past the last slot it raises iff some entry belongs to that image, and otherwise changes nothing |
| Predict.GetWordsFrom | percato/predict.py:61-64 | the outer loop from word `n` on; stated by Predict.GetWordsAsWrittenResult |
| Predict.GetWordsAsWritten | percato/predict.py:58-65 | `get_words` as written, starting from a single empty word; stated by Predict.GetWordsAsWrittenResult |
| Predict.GetWordsAsWrittenResult | percato/predict.py:58-65 | the as-written loop raises iff some entry has `1 <= image_id < n_words`, and otherwise returns the image-0 word alone |
| Predict.GetWordsAsWrittenCounterexample | percato/predict.py:64 | two words with entries of images 0 and 1 make the as-written loop raise |
| Predict.GetWords | percato/predict.py:58-65 | one word per image, holding exactly that image's entries |
| Predict.GetWordsOrder | percato/predict.py:58-65 | word `n` holds each entry of image `n` as often as the dump does, and the words of a concatenated dump are the halves' words joined, so each word keeps the input order |
| Predict.GetWordsOneWord | percato/predict.py:58-65 | for a single word the as-written loop and the corrected one agree |
| Assembler.Masks | textutils.py:48-56 | one mask per box |
| Assembler.Pieces | textutils.py:42-46 | unknown letters fail under `reject_unknown`; the parts are `get_characters`' and concatenate to the shaped (or raw) text; there is one box per separator, each in the image, inside its band and holding ink; longer texts get one box per part |
| Assembler.Pack | textutils.py:48-63 | the record takes the next counter id and keeps text and parts; boxes are kept unless `loosebox` alone is set; then each box keeps its columns and has its rows widened by 10 and clipped to `[0, w]`, the number of columns, as `loose` does on `image.shape` |
| Assembler.PackRows | textutils.py:48-63 | the same with the loosened rows clipped to `[0, h]`, the number of rows |
| Assembler.CreateMetaImage | textutils.py:42-64 | as written: the record's parts concatenate to the shaped (or raw) text, its id is the counter's, one box per part for longer texts, and one mask per box exactly when masks are used; its loosened boxes are stated by Assembler.LooseBoxesContainPlain |
| Assembler.CreateMetaImageRows | textutils.py:42-64 | fails exactly when the pieces do; otherwise it keeps the text, image, id and parts, and the tight boxes unless `loosebox` alone is set |
| Assembler.SameParts | textutils.py:190-208 | the width list and the parts list have the same length, so boxes and parts pair up |
| Assembler.MasksAreBoxInk | textutils.py:48-57 | with masks, the boxes and parts are those of a plain run, and mask `k` marks exactly the ink of box `k` |
| Assembler.LooseBoxesContainPlain | textutils.py:59-61 | as written, with `loosebox` each box keeps the plain box's columns and has its rows widened by 10 and clipped to the number of columns; it contains the plain box when the image is at least as wide as high |
| Assembler.LooseRowsContainPlain | textutils.py:59-61 | with the rows clipped to the image, each loosened box keeps the plain box's columns, contains it, and stays within the image's rows |
| Assembler.CreateMetaImageOlder | textutil.py:59-64 | it fails iff the older boxing fails; the parts are stored last first and reproduce the text when reversed; one box per part for texts without spaces |

## Left out

- Rendering (`create_image`, PIL fonts, anti-aliasing) and measurement (`get_size`): the image and the width measure `size` are parameters.
- `cv2.connectedComponents` is a foreign call. It is modelled by its contract: the 8-connected component of a pixel, as the least closed ink set. The 4-connected BFS of textutil.py is modelled as code and proved equal to its contract.
- The component and box caches (`comps_pixels`, `box_pixels_cache`) are left out, because they do not change results.
- Segmenter.Tighten: an edge that would cross the opposite one is reported as `DegenerateBox`. The source has no guard there. Once the window is empty, `check_pixel` raises `ValueError` unpacking the empty piece (`zip(*seg_pixels)` at textutils.py:103 and GenerDat/textutil.py:91, `max()` of an empty list in textutil.py). An edge moved to -1 raises "No parameters." (textutils.py:124), and one moved past the far border raises `IndexError`. Only the variants with shared good/bad sets can return an inverted box, when a pixel judged good for an earlier character stops the edge.
- Segmenter.SegmentCharacter: columns outside the image are reported as `ColumnOutOfImage`. The source raises there as well. For a negative column, `image[x0:x1]` wraps around (as Raster.SliceBound models), and then `complex_condition(x=x0)` raises "No parameters." (textutils.py:124). A column past the last one raises `IndexError` when its edge line is read.
- Classify.RatioTest: the ratio is compared in exact rationals, not binary floating point. The two differ only when `ns / (ns + ni)` is within rounding of 0.1.
- Splitting.FindExceptions: requires non-empty exception words, and so do Splitting.ScanFrom, Splitting.ScanSpansMatch, Splitting.ScanComplete, Splitting.FindExceptionsComplete, Splitting.GetCharacters, Splitting.RawPartsAreLettersOrExceptions, Splitting.GetCharactersGenerDatAsWritten, Splitting.GenerDatAsWrittenAgainstCorrected and the members built on them: Widths.CharacterWidths, Widths.WidthsAscend, Assembler.Pieces, Assembler.CreateMetaImage, Assembler.CreateMetaImageRows, Assembler.SameParts, Assembler.MasksAreBoxInk, Assembler.LooseBoxesContainPlain and Assembler.LooseRowsContainPlain. An empty alternative is regex-specific behaviour, and so is the arbitrary set order. Words are matched literally: the source compiles them unescaped, so a word holding a regex metacharacter (`.`, `|`, `(`, `*` and the like) acts as a pattern or raises `re.error`, and that is not modelled.
- The float branch of `loose` (`y0 /= value`, `y1 *= value`) is floating-point scaling and is left out. Both Loose.LooseAsWritten and Loose.Loose clip to `h` inclusive, as `np.clip(num, 0, h)` does.
- Shaping.FreezeLetters: a form that is the empty string is not modelled. Python's `"".join` would drop such a form where the model fails with `MissingForm`, and `get_persian_letter_forms` would keep it in the form set.
- Masks are modelled as `bool` grids rather than `uint8`/`int8` arrays.
- `bbox[0]` and `score` of a prediction are taken as exact reals.
- Predict.SortWord: the model returns the sorted list. The source sorts the caller's list in place, and that side effect is not modelled.
- Rle.BinaryRleDecode: the model takes the count list. The source parses it from a delimited string (`np.fromstring`).
- GenerDat/textutil.py:167 calls `freeze_letters`, but GenerDat/characterutil.py defines that function as `fix_letters` (92-100), so the GenerDat call raises `AttributeError` whenever shaping is requested (see "## Findings"). Splitting.GetCharactersGenerDatAsWritten models that; the rest of the model, Widths.CharacterWidths and Assembler.CreateMetaImage included, shapes GenerDat text with Shaping.FreezeLetters, which has the behaviour of `fix_letters`.
- Randomness (`get_equal_words`, `get_mean_words`) is left out.
- File and terminal I/O is left out: saving images, `save_image_with_boxes`, `load_persian_letters` (the table is an input map), `np.savez_compressed` and printing.
- Also left out: the `main()` drivers beyond the framing rule, `run.py`, `params.py`, `setup.py`, percato/conv2dete.py, both datacheck.py scripts, main.py, percato/main.py and the root predict.py draft.
- `warnings.warn` in `DetectronMeta.to_dict` and the file naming of saved images are left out.

## Findings

| source | as written | input that shows it | evidently intended | confidence | as-written member | corrected member |
|---|---|---|---|---|---|---|
| textutil.py:270 | the one-runs are extended with `0`, so the decoder outputs only zeros | counts `[0, 1]` (one set cell) decode to `[0]` | extend with `1` for the one-runs, making it the inverse of `binary_rle` | not executed | Rle.BinaryRleDecodeAsWritten, Rle.AsWrittenDecodeCounterexample | Rle.BinaryRleDecode, Rle.BinaryRleRoundTrip |
| textutils.py:217 | `loose` clips rows to `shape[1]`, the column count of the image array | 30 rows, 100 columns, rows 5..25, margin 10 give rows 0..35 | clip to the row count `shape[0]` | not executed | Loose.LooseAsWritten, Loose.LooseAsWrittenPassesRows, Assembler.LooseBoxesContainPlain | Loose.Loose, Loose.LooseBoxesContain, Assembler.LooseRowsContainPlain |
| One/main.py:85 | `"parts": self.parts.reverse()` emits `None`, because `list.reverse()` returns nothing | any record | emit the reversed parts, as percato/container.py does | not executed | Meta.ToDictOneAsWritten, Meta.ToDictOneDropsParts | Meta.ToDictOne |
| percato/container.py:90 | `id` is passed by position into the `masks` slot, so `from_imagemeta` drops the meta's id, and with `save_labeled_image=True` (the default) `save_image_with_boxes` raises `TypeError` iterating that int | with `save_labeled_image=False`, a meta with id 5 and counter 7 converts to id 7 | pass `id=id` by keyword | not executed | Meta.NewDetectronMetaAsWritten, Meta.FromImageMetaDropsId | Meta.FromImageMeta |
| One/main.py:454-457 | the first record opens the array, and only a later record can close it | batch 1 writes `"[" + record` with no closing bracket | close the array after the last record, whatever the batch size | not executed | Meta.FrameAsWritten, Meta.FrameAsWrittenShape | Meta.Frame, Meta.FrameIsArray |
| percato/predict.py:60-64 | `words` starts with a single list, and `words[n]` is indexed for every `n < n_words` | `n_words = 2` with an entry of `image_id` 1 raises `IndexError` | one list per word | not executed | Predict.GetWordsAsWritten, Predict.GetWordsAsWrittenCounterexample | Predict.GetWords, Predict.GetWordsOneWord |
| textutil.py:41 | `w, h = self.image.shape` unpacks the (rows, columns) shape of the array | a 10-row, 40-column image records width 10 and height 40 | `h, w = self.image.shape`, as the other copies have it | not executed | Meta.ToDictOlderAsWritten, Meta.ToDictOlderSwapsSides | Meta.ToDictGenerDat |
| GenerDat/textutil.py:167 | `get_characters` calls `self.char_manager.freeze_letters`, which GenerDat's `CharacterManager` does not define (it has `fix_letters`), so it raises `AttributeError` whenever shaping is requested; `create_meta_image` (line 47) and `get_character_widths` (line 181) request it through `reject_unknown`, which defaults to and is set to `True` | any text with `reject_unknown=True`, the empty text included | call `fix_letters` | not executed | Splitting.GetCharactersGenerDatAsWritten, Splitting.GenerDatAsWrittenAgainstCorrected | Splitting.GetCharacters, Shaping.FreezeFailsOnlyOnUnknown |
