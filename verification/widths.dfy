/** Character widths: the x coordinates (in the transposed image) that
    separate the characters of a rendered right-to-left text. The font is
    a parameter `size`: the rendered width of a string. */
module Widths {
  import opened Wrappers
  import opened Seqs
  import Shaping
  import Splitting
  import TextUtil

  /** `[width + 1 - size(item) for item in items[1:]] + [width - 1]`. */
  function WidthsFrom(size: string -> int, width: int, items: seq<string>): (r: seq<int>)
    ensures |r| == if |items| == 0 then 1 else |items|
    ensures r[|r| - 1] == width - 1
    ensures forall k :: 0 <= k < |items| - 1 ==> r[k] == width + 1 - size(items[k + 1])
  {
    (if |items| == 0 then [] else seq(|items| - 1, k requires 0 <= k < |items| - 1 => width + 1 - size(items[k + 1])))
    + [width - 1]
  }

  /** The growing prefixes `"".join(chars[:i])` for `i` in `1..n`. */
  function Prefixes(chars: seq<string>): (r: seq<string>)
    ensures |r| == |chars|
    ensures forall i :: 0 <= i < |r| ==> r[i] == Concat(chars[..i + 1])
  {
    seq(|chars|, i requires 0 <= i < |chars| => Concat(chars[..i + 1]))
  }

  lemma ReversedPrefixes(chars: seq<string>)
    ensures var rp := Reverse(Prefixes(chars));
      forall m :: 1 <= m < |chars| ==> rp[m] == Concat(chars[..|chars| - m])
  {
  }

  /** The widths for the parts of a text rendered `width` pixels wide: the
      prefixes, reversed, measured from the left edge. */
  function WidthsOfParts(size: string -> int, width: int, chars: seq<string>): (r: seq<int>)
    requires |chars| >= 1
    ensures |r| == |chars| && r[|chars| - 1] == width - 1
    ensures forall m :: 0 <= m < |chars| - 1 ==> r[m] == width + 1 - size(Concat(chars[..|chars| - 1 - m]))
  {
    ReversedPrefixes(chars);
    var r := WidthsFrom(size, width, Reverse(Prefixes(chars)));
    assert forall m :: 0 <= m < |chars| - 1 ==> r[m] == width + 1 - size(Reverse(Prefixes(chars))[m + 1]);
    r
  }

  /** A text of two or more characters never splits into no parts. */
  lemma PartsNotEmpty(t: Shaping.Table, excs: seq<string>, text: string, reject: bool)
    requires Splitting.NonEmptyWords(excs) && |text| >= 2
    requires Splitting.GetCharacters(t, excs, text, reject, reject).Success?
    ensures |Splitting.GetCharacters(t, excs, text, reject, reject).value| >= 1
  {
  }

  /** `get_character_widths(text)` of textutils.py (also One/main.py and
      GenerDat/textutil.py): entry `m` is where the part `m` places from the
      end of the text begins, seen from the left of the image. */
  function CharacterWidths(size: string -> int, t: Shaping.Table, excs: seq<string>, text: string, reject: bool)
    : (r: Result<seq<int>, Shaping.ShapeError>)
    requires Splitting.NonEmptyWords(excs)
    ensures |text| < 2 ==> r == Success([size(text) - 1])
    ensures |text| >= 2 ==> (r.Failure? <==> reject && Shaping.FreezeLetters(t, text, reject).Failure?)
    ensures r.Success? && |text| >= 2 ==>
      var parts := Splitting.GetCharacters(t, excs, text, reject, reject).value;
      var n := |parts|;
      n >= 1 && |r.value| == n && r.value[n - 1] == size(text) - 1
      && forall m :: 0 <= m < n - 1 ==> r.value[m] == size(text) + 1 - size(Concat(parts[..n - 1 - m]))
  {
    if |text| < 2 then Success([size(text) - 1])
    else
      var chars := Splitting.GetCharacters(t, excs, text, reject, reject);
      if chars.Failure? then Failure(chars.error)
      else
        PartsNotEmpty(t, excs, text, reject);
        Success(WidthsOfParts(size, size(text), chars.value))
  }

  /** When every longer prefix renders at least as wide as a shorter one and
      every non-empty prefix is at least two pixels wide, the separators
      ascend from left to right. */
  lemma WidthsAscend(size: string -> int, t: Shaping.Table, excs: seq<string>, text: string, reject: bool)
    requires Splitting.NonEmptyWords(excs) && |text| >= 2
    requires CharacterWidths(size, t, excs, text, reject).Success?
    requires var parts := Splitting.GetCharacters(t, excs, text, reject, reject).value;
      forall i, j :: 1 <= i <= j <= |parts| ==> 2 <= size(Concat(parts[..i])) <= size(Concat(parts[..j]))
    ensures var r := CharacterWidths(size, t, excs, text, reject).value;
      forall m, l :: 0 <= m <= l < |r| ==> r[m] <= r[l]
  {
    var parts := Splitting.GetCharacters(t, excs, text, reject, reject).value;
    PartsNotEmpty(t, excs, text, reject);
    assert CharacterWidths(size, t, excs, text, reject).value == WidthsOfParts(size, size(text), parts);
    PartWidthsAscend(size, size(text), parts);
  }

  lemma PartWidthsAscend(size: string -> int, width: int, parts: seq<string>)
    requires |parts| >= 1
    requires forall i, j :: 1 <= i <= j <= |parts| ==> 2 <= size(Concat(parts[..i])) <= size(Concat(parts[..j]))
    ensures var r := WidthsOfParts(size, width, parts);
      forall m, l :: 0 <= m <= l < |r| ==> r[m] <= r[l]
  {
    var r := WidthsOfParts(size, width, parts);
    var n := |parts|;
    forall m, l | 0 <= m <= l < |r|
      ensures r[m] <= r[l]
    {
      if m < n - 1 {
        var i := n - 1 - m;
        assert 2 <= size(Concat(parts[..i])) <= size(Concat(parts[..i]));
        if l < n - 1 {
          assert 2 <= size(Concat(parts[..n - 1 - l])) <= size(Concat(parts[..i]));
        }
      }
    }
  }

  /** `get_character_widths(text)` of textutil.py: a text of fewer than two
      non-joiner characters has one width, otherwise one per `reduce` item. */
  function CharacterWidthsOlder(size: string -> int, excs: seq<string>, text: string): (r: seq<int>)
    ensures |text| - TextUtil.CountChar(TextUtil.JOINER, text) < 2 ==> r == [size(text) - 1]
    ensures |text| - TextUtil.CountChar(TextUtil.JOINER, text) >= 2 ==>
      var items := TextUtil.Reduce(excs, text);
      |r| == (if |items| == 0 then 1 else |items|) && r[|r| - 1] == size(text) - 1
      && forall k :: 0 <= k < |items| - 1 ==> r[k] == size(text) + 1 - size(items[k + 1])
  {
    if |text| - TextUtil.CountChar(TextUtil.JOINER, text) < 2 then [size(text) - 1]
    else WidthsFrom(size, size(text), TextUtil.Reduce(excs, text))
  }

  /** For a text without spaces and with at least two non-joiner characters
      the older widths have one entry per part of the backward split, just
      as the boxes built from them have. */
  lemma OlderWidthsMatchParts(size: string -> int, excs: seq<string>, text: string)
    requires forall m :: 0 <= m < |text| ==> text[m] != ' '
    requires |text| - TextUtil.CountChar(TextUtil.JOINER, text) >= 2
    ensures |CharacterWidthsOlder(size, excs, text)| == |TextUtil.GetCharacters(excs, text)|
  {
    TextUtil.CutsFollowParts(excs, text, |text|);
  }
}
