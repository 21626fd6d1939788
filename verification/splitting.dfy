/** Splitting a text into labelled parts with exception ligatures, as the
    `find_exceptions` / `get_characters` pair of textutils.py does (the same
    code is in One/main.py and GenerDat/textutil.py).

    The exception words are a Python `set` joined, unescaped, into a regular
    expression; here they are an ordered list matched literally: at each
    position the first listed word that occurs there wins, which is how
    regex alternation behaves for the order the set happens to iterate in,
    as long as no word holds a regex metacharacter. */
module Splitting {
  import opened Wrappers
  import opened Seqs
  import Shaping

  /** A half-open match span `(start, end)` of `finditer`. */
  type Span = (nat, nat)

  predicate OccursAt(w: string, text: string, p: nat)
  {
    p + |w| <= |text| && text[p..p + |w|] == w
  }

  predicate NonEmptyWords(excs: seq<string>)
  {
    forall k :: 0 <= k < |excs| ==> |excs[k]| > 0
  }

  /** Index of the first listed exception occurring at `p`, from index `k` on. */
  function MatchFrom(excs: seq<string>, text: string, p: nat, k: nat): (r: Option<nat>)
    requires k <= |excs|
    ensures r.Some? ==> k <= r.value < |excs| && OccursAt(excs[r.value], text, p)
                        && forall j :: k <= j < r.value ==> !OccursAt(excs[j], text, p)
    ensures r.None? ==> forall j :: k <= j < |excs| ==> !OccursAt(excs[j], text, p)
    decreases |excs| - k
  {
    if k == |excs| then None
    else if OccursAt(excs[k], text, p) then Some(k)
    else MatchFrom(excs, text, p, k + 1)
  }

  function MatchAt(excs: seq<string>, text: string, p: nat): Option<nat>
  {
    MatchFrom(excs, text, p, 0)
  }

  /** Spans are in bounds, non-empty, ascending and non-overlapping. */
  predicate ValidSpans(spans: seq<Span>, n: nat)
  {
    (forall i :: 0 <= i < |spans| ==> spans[i].0 < spans[i].1 <= n)
    && (forall i, j :: 0 <= i < j < |spans| ==> spans[i].1 <= spans[j].0)
  }

  predicate Covered(spans: seq<Span>, q: nat)
  {
    exists i :: 0 <= i < |spans| && spans[i].0 <= q < spans[i].1
  }

  /** The scan of `finditer` from position `p`: leftmost matches, first
      listed word at a position, resuming after each match. */
  function ScanFrom(excs: seq<string>, text: string, p: nat): (r: seq<Span>)
    requires NonEmptyWords(excs)
    ensures forall i :: 0 <= i < |r| ==> p <= r[i].0 < r[i].1 <= |text|
    ensures forall i, j :: 0 <= i < j < |r| ==> r[i].1 <= r[j].0
    decreases |text| - p
  {
    if p >= |text| then []
    else
      var m := MatchAt(excs, text, p);
      if m.Some? then [(p, p + |excs[m.value]|)] + ScanFrom(excs, text, p + |excs[m.value]|)
      else ScanFrom(excs, text, p + 1)
  }

  /** Span `sp` is the first listed word occurring at its start. */
  predicate IsFirstMatch(excs: seq<string>, text: string, sp: Span)
  {
    var m := MatchAt(excs, text, sp.0);
    m.Some? && sp.1 == sp.0 + |excs[m.value]|
  }

  /** Every span of the scan is the first listed word occurring at its start. */
  lemma {:induction false} ScanSpansMatch(excs: seq<string>, text: string, p: nat)
    requires NonEmptyWords(excs)
    ensures forall i :: 0 <= i < |ScanFrom(excs, text, p)| ==> IsFirstMatch(excs, text, ScanFrom(excs, text, p)[i])
    decreases |text| - p
  {
    if p < |text| {
      var m := MatchAt(excs, text, p);
      var r := ScanFrom(excs, text, p);
      if m.Some? {
        var n := p + |excs[m.value]|;
        ScanSpansMatch(excs, text, n);
        var rest := ScanFrom(excs, text, n);
        assert r == [(p, n)] + rest;
        forall i | 0 <= i < |r|
          ensures IsFirstMatch(excs, text, r[i])
        {
          if i > 0 {
            assert r[i] == rest[i - 1];
          }
        }
      } else {
        ScanSpansMatch(excs, text, p + 1);
        assert r == ScanFrom(excs, text, p + 1);
      }
    }
  }

  /** No occurrence from `p` on escapes the scan: every position where some
      word occurs lies inside a span (a match or the inside of an earlier one). */
  lemma {:induction false} ScanComplete(excs: seq<string>, text: string, p: nat, q: nat)
    requires NonEmptyWords(excs)
    requires p <= q < |text| && MatchAt(excs, text, q).Some?
    ensures Covered(ScanFrom(excs, text, p), q)
    decreases |text| - p
  {
    var r := ScanFrom(excs, text, p);
    var m := MatchAt(excs, text, p);
    if m.Some? {
      var n := p + |excs[m.value]|;
      var rest := ScanFrom(excs, text, n);
      assert r == [(p, n)] + rest;
      if q < n {
        assert r[0].0 <= q < r[0].1;
      } else {
        ScanComplete(excs, text, n, q);
        var i :| 0 <= i < |rest| && rest[i].0 <= q < rest[i].1;
        assert r[i + 1] == rest[i];
      }
    } else {
      assert q != p;
      ScanComplete(excs, text, p + 1, q);
      assert r == ScanFrom(excs, text, p + 1);
    }
  }

  /** `find_exceptions`: no configured words, no spans. */
  function FindExceptions(excs: seq<string>, text: string): (r: seq<Span>)
    requires NonEmptyWords(excs)
    ensures |excs| == 0 ==> r == []
    ensures ValidSpans(r, |text|)
    ensures forall i :: 0 <= i < |r| ==> text[r[i].0..r[i].1] in excs
  {
    if |excs| == 0 then []
    else
      var r := ScanFrom(excs, text, 0);
      ScanSpansMatch(excs, text, 0);
      assert forall i :: 0 <= i < |r| ==> text[r[i].0..r[i].1] in excs by {
        forall i | 0 <= i < |r|
          ensures text[r[i].0..r[i].1] in excs
        {
          assert IsFirstMatch(excs, text, r[i]);
          var k := MatchAt(excs, text, r[i].0).value;
          assert OccursAt(excs[k], text, r[i].0);
        }
      }
      r
  }

  /** Leftmost matching: wherever a configured word occurs, the position is
      inside a found span. */
  lemma FindExceptionsComplete(excs: seq<string>, text: string, q: nat)
    requires NonEmptyWords(excs)
    requires q < |text| && MatchAt(excs, text, q).Some?
    ensures Covered(FindExceptions(excs, text), q)
  {
    ScanComplete(excs, text, 0, q);
  }

  /** `chars[s] = reduce(str.__add__, chars[s:e]); del chars[s + 1:e]`. */
  function Merge(chars: seq<string>, s: nat, e: nat): (r: seq<string>)
    requires s < e <= |chars|
  {
    chars[..s] + [Concat(chars[s..e])] + chars[e..]
  }

  /** The span loop of `get_characters`: spans applied last to first. */
  function ApplySpans(chars: seq<string>, spans: seq<Span>): (r: seq<string>)
    requires ValidSpans(spans, |chars|)
    decreases |spans|
  {
    if |spans| == 0 then chars
    else
      var last := spans[|spans| - 1];
      var merged := Merge(chars, last.0, last.1);
      ApplySpans(merged, spans[..|spans| - 1])
  }

  /** Independent reference: the parts read left to right, every span one
      part and every other position a part of its own. */
  function Group(chars: seq<string>, spans: seq<Span>, p: nat): (r: seq<string>)
    requires ValidSpans(spans, |chars|) && p <= |chars|
    requires forall i :: 0 <= i < |spans| ==> p <= spans[i].0
    decreases |spans|
  {
    if |spans| == 0 then chars[p..]
    else chars[p..spans[0].0] + [Concat(chars[spans[0].0..spans[0].1])] + Group(chars, spans[1..], spans[0].1)
  }

  /** Dropping the last span leaves valid spans that all end before it. */
  lemma SnocSpans(init: seq<Span>, s: nat, e: nat, n: nat, m: nat)
    requires ValidSpans(init + [(s, e)], n) && s < m
    ensures ValidSpans(init, m)
    ensures forall i :: 0 <= i < |init| ==> init[i].1 <= s
  {
    var all := init + [(s, e)];
    assert forall i :: 0 <= i < |init| ==> init[i] == all[i];
    assert all[|init|] == (s, e);
  }

  /** Dropping the first span leaves valid spans that start after it. */
  lemma TailSpans(spans: seq<Span>, n: nat)
    requires ValidSpans(spans, n) && |spans| > 0
    ensures ValidSpans(spans[1..], n)
    ensures forall i :: 0 <= i < |spans| - 1 ==> spans[0].1 <= spans[1..][i].0
  {
    assert forall i :: 0 <= i < |spans| - 1 ==> spans[1..][i] == spans[i + 1];
  }

  /** Merging at `s` leaves the elements before `s` in place. */
  lemma MergeKeepsFront(chars: seq<string>, s: nat, e: nat, a: nat, b: nat)
    requires s < e <= |chars| && a <= b <= s
    ensures Merge(chars, s, e)[a..b] == chars[a..b]
  {
  }

  /** With no earlier spans, the merged list read from `p` is the grouping
      of the one span. */
  lemma MergeIsGroup(chars: seq<string>, s: nat, e: nat, p: nat)
    requires s < e <= |chars| && p <= s
    requires ValidSpans([(s, e)], |chars|)
    ensures Merge(chars, s, e)[p..] == Group(chars, [(s, e)], p)
  {
    assert [(s, e)][1..] == [];
  }

  lemma {:induction false} GroupAfterMerge(chars: seq<string>, init: seq<Span>, s: nat, e: nat, p: nat)
    requires s < e <= |chars| && p <= s
    requires ValidSpans(init + [(s, e)], |chars|)
    requires forall i :: 0 <= i < |init| ==> p <= init[i].0
    ensures ValidSpans(init, |Merge(chars, s, e)|)
    ensures Group(Merge(chars, s, e), init, p) == Group(chars, init + [(s, e)], p)
    decreases |init|
  {
    var m := Merge(chars, s, e);
    var all := init + [(s, e)];
    SnocSpans(init, s, e, |chars|, |m|);
    if |init| == 0 {
      assert all == [(s, e)];
      MergeIsGroup(chars, s, e, p);
    } else {
      var (s1, e1) := init[0];
      assert all[0] == init[0] && all[1..] == init[1..] + [(s, e)];
      MergeKeepsFront(chars, s, e, p, s1);
      MergeKeepsFront(chars, s, e, s1, e1);
      TailSpans(all, |chars|);
      TailSpans(init, |m|);
      GroupAfterMerge(chars, init[1..], s, e, e1);
    }
  }

  /** Applying the spans back to front gives the left-to-right grouping:
      merging a later span never disturbs the indices of earlier ones. */
  lemma {:induction false} ApplySpansIsGroup(chars: seq<string>, spans: seq<Span>)
    requires ValidSpans(spans, |chars|)
    ensures ApplySpans(chars, spans) == Group(chars, spans, 0)
    decreases |spans|
  {
    if |spans| > 0 {
      var last := spans[|spans| - 1];
      var init := spans[..|spans| - 1];
      assert spans == init + [last];
      GroupAfterMerge(chars, init, last.0, last.1, 0);
      ApplySpansIsGroup(Merge(chars, last.0, last.1), init);
    }
  }

  lemma {:induction false} ConcatSlices<T>(xs: seq<seq<T>>, a: nat, b: nat)
    requires a <= b <= |xs|
    ensures Concat(xs[a..]) == Concat(xs[a..b]) + Concat(xs[b..])
  {
    assert xs[a..] == xs[a..b] + xs[b..];
    ConcatAppend(xs[a..b], xs[b..]);
  }

  /** The grouping keeps the concatenation of the parts. */
  lemma {:induction false} GroupConcat(chars: seq<string>, spans: seq<Span>, p: nat)
    requires ValidSpans(spans, |chars|) && p <= |chars|
    requires forall i :: 0 <= i < |spans| ==> p <= spans[i].0
    ensures Concat(Group(chars, spans, p)) == Concat(chars[p..])
    decreases |spans|
  {
    if |spans| > 0 {
      var (s, e) := spans[0];
      var rest := Group(chars, spans[1..], e);
      TailSpans(spans, |chars|);
      GroupConcat(chars, spans[1..], e);
      assert Group(chars, spans, p) == chars[p..s] + [Concat(chars[s..e])] + rest;
      ConcatGroupStep(chars, p, s, e, rest);
    }
  }

  /** One merged span between untouched elements keeps the concatenation. */
  lemma ConcatGroupStep(chars: seq<string>, p: nat, s: nat, e: nat, rest: seq<string>)
    requires p <= s < e <= |chars|
    requires Concat(rest) == Concat(chars[e..])
    ensures Concat(chars[p..s] + [Concat(chars[s..e])] + rest) == Concat(chars[p..])
  {
    ConcatAppend(chars[p..s] + [Concat(chars[s..e])], rest);
    ConcatAppend(chars[p..s], [Concat(chars[s..e])]);
    ConcatSingle(Concat(chars[s..e]));
    ConcatSlices(chars, p, s);
    ConcatSlices(chars, s, e);
    assert chars[p..][s - p..] == chars[s..];
  }

  /** `list(text)`: one single-character part per character. */
  function Singletons(s: string): (r: seq<string>)
    ensures |r| == |s|
  {
    seq(|s|, i requires 0 <= i < |s| => [s[i]])
  }

  lemma SingletonsSlice(s: string, a: nat, b: nat)
    requires a <= b <= |s|
    ensures Singletons(s)[a..b] == Singletons(s[a..b])
  {
    var l, r := Singletons(s)[a..b], Singletons(s[a..b]);
    assert forall i :: 0 <= i < |l| ==> l[i] == [s[a + i]] == r[i];
  }

  lemma SingletonsAreSingle(s: string, a: nat, b: nat)
    requires a <= b <= |s|
    ensures forall x :: x in Singletons(s)[a..b] ==> |x| == 1
  {
  }

  lemma {:induction false} SingletonsConcat(s: string)
    ensures Concat(Singletons(s)) == s
    decreases |s|
  {
    if |s| > 0 {
      var init := s[..|s| - 1];
      assert Singletons(s)[..|s| - 1] == Singletons(init);
      SingletonsConcat(init);
    }
  }

  /** `get_characters(text, freeze_letters, reject)`: shape the text (or take
      it raw), then collapse every exception span into one part. */
  function GetCharacters(t: Shaping.Table, excs: seq<string>, text: string, freeze: bool, reject: bool)
    : (r: Result<seq<string>, Shaping.ShapeError>)
    requires NonEmptyWords(excs)
    ensures r.Failure? <==> freeze && Shaping.FreezeLetters(t, text, reject).Failure?
    ensures r.Success? ==> Concat(r.value) == (if freeze then Shaping.FreezeLetters(t, text, reject).value else text)
    ensures r.Success? ==>
      r.value == Group(Singletons(if freeze then Shaping.FreezeLetters(t, text, reject).value else text),
                       FindExceptions(excs, text), 0)
  {
    var shaped :- if freeze then Shaping.FreezeLetters(t, text, reject) else Success(text);
    var chars := Singletons(shaped);
    var spans := FindExceptions(excs, text);
    ApplySpansIsGroup(chars, spans);
    GroupConcat(chars, spans, 0);
    SingletonsConcat(shaped);
    assert chars[0..] == chars;
    Success(ApplySpans(chars, spans))
  }

  lemma {:induction false} GroupParts(excs: seq<string>, text: string, spans: seq<Span>, p: nat)
    requires ValidSpans(spans, |text|) && p <= |text|
    requires forall i :: 0 <= i < |spans| ==> p <= spans[i].0
    requires forall i :: 0 <= i < |spans| ==> text[spans[i].0..spans[i].1] in excs
    ensures forall x :: x in Group(Singletons(text), spans, p) ==> |x| == 1 || x in excs
    decreases |spans|
  {
    var chars := Singletons(text);
    if |spans| == 0 {
      SingletonsAreSingle(text, p, |text|);
    } else {
      var (s, e) := spans[0];
      var piece := text[s..e];
      var rest := Group(chars, spans[1..], e);
      TailSpans(spans, |text|);
      assert forall i :: 0 <= i < |spans| - 1 ==> spans[1..][i] == spans[i + 1];
      GroupParts(excs, text, spans[1..], e);
      SingletonsSlice(text, s, e);
      SingletonsConcat(piece);
      assert Group(chars, spans, p) == chars[p..s] + [piece] + rest;
      SingletonsAreSingle(text, p, s);
      assert piece in excs;
      PartsOfThree(excs, chars[p..s], piece, rest);
    }
  }

  lemma PartsOfThree(excs: seq<string>, front: seq<string>, piece: string, rest: seq<string>)
    requires forall x :: x in front ==> |x| == 1
    requires piece in excs
    requires forall x :: x in rest ==> |x| == 1 || x in excs
    ensures forall x :: x in front + [piece] + rest ==> |x| == 1 || x in excs
  {
  }

  /** Every part of a raw split is a single character or a whole exception
      word, and the parts spell the text. */
  lemma RawPartsAreLettersOrExceptions(t: Shaping.Table, excs: seq<string>, text: string, reject: bool)
    requires NonEmptyWords(excs)
    ensures var r := GetCharacters(t, excs, text, false, reject);
      r.Success? && Concat(r.value) == text
      && forall x :: x in r.value ==> |x| == 1 || x in excs
  {
    GroupParts(excs, text, FindExceptions(excs, text), 0);
  }

  /** The failure of `get_characters` in GenerDat/textutil.py when shaping
      is requested: it calls `self.char_manager.freeze_letters`, but the
      `CharacterManager` of GenerDat/characterutil.py only has `fix_letters`,
      so the lookup raises `AttributeError`. */
  datatype GenerDatError = NoFreezeLetters

  /** `get_characters(text, freeze_letters, reject)` of GenerDat/textutil.py
      as written: it fails whenever shaping is requested, and otherwise
      splits the raw text. */
  function GetCharactersGenerDatAsWritten(t: Shaping.Table, excs: seq<string>, text: string, freeze: bool, reject: bool)
    : (r: Result<seq<string>, GenerDatError>)
    requires NonEmptyWords(excs)
    ensures r.Failure? <==> freeze
    ensures r.Success? ==> Concat(r.value) == text && forall x :: x in r.value ==> |x| == 1 || x in excs
  {
    if freeze then Failure(NoFreezeLetters)
    else
      RawPartsAreLettersOrExceptions(t, excs, text, reject);
      Success(GetCharacters(t, excs, text, false, reject).value)
  }

  /** Without shaping the call as written gives the parts of the corrected
      one; with the flags GenerDat sets (`reject_unknown` true) it fails even
      on the empty text, which the corrected call, shaping with
      `fix_letters`, splits without failure. */
  lemma GenerDatAsWrittenAgainstCorrected(t: Shaping.Table, excs: seq<string>, text: string, reject: bool)
    requires NonEmptyWords(excs)
    ensures GetCharactersGenerDatAsWritten(t, excs, text, false, reject)
            == Success(GetCharacters(t, excs, text, false, reject).value)
    ensures GetCharactersGenerDatAsWritten(t, excs, "", true, true).Failure?
    ensures GetCharacters(t, excs, "", true, true) == Success([])
  {
    assert Shaping.FreezeLetters(t, "", true).Success?;
    assert Singletons("") == [];
  }
}
