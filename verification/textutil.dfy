/** The older text helpers of textutil.py: exceptions searched backwards
    from the end of the text, the prefix list `reduce` that feeds the
    character widths, the joining test, and the word generator. */
module TextUtil {
  import opened Wrappers
  import opened Seqs

  /** ZERO WIDTH JOINER, `chr(8205)`. */
  const JOINER: char := '\U{200D}'

  /** Letters that connect to the letter after them. */
  const JOINABLES: string :=
    "\U{0636}\U{0635}\U{062B}\U{0642}\U{0641}\U{063A}\U{0639}\U{0647}\U{062E}\U{062D}\U{062C}\U{0686}\U{0634}"
    + "\U{0633}\U{06CC}\U{0628}\U{0644}\U{062A}\U{0646}\U{0645}\U{06A9}\U{06AF}\U{0638}\U{0637}\U{067E}\U{0626}"

  /** Characters a joinable letter never joins to. */
  const NON_JOINABLES: string :=
    "\U{0020}\U{061F}\U{0020}\U{002E}\U{060C}\U{00D7}\U{066A}\U{066C}\U{0021}"

  /** The letters `get_words_of_length` draws from by default. */
  const WORD_LETTERS: string :=
    "\U{0636}\U{0635}\U{062B}\U{0642}\U{0641}\U{063A}\U{0639}\U{0647}\U{062E}\U{062D}\U{062C}\U{0686}\U{0634}"
    + "\U{06CC}\U{06CC}\U{0628}\U{0644}\U{0627}\U{062A}\U{0646}\U{0645}\U{06A9}\U{06AF}\U{0638}\U{0637}\U{0632}"
    + "\U{0631}\U{0630}\U{062F}\U{067E}\U{0648}\U{0698}"

  /** Word `w` ends exactly at position `end` of `text`. */
  predicate EndsAt(w: string, text: string, end: nat)
    requires end <= |text|
  {
    |w| <= end && text[end - |w|..end] == w
  }

  function SearchFrom(excs: seq<string>, text: string, end: nat, k: nat): (r: Option<nat>)
    requires end <= |text| && k <= |excs|
    ensures r.Some? ==> k <= r.value < |excs| && EndsAt(excs[r.value], text, end)
                        && forall j :: k <= j < r.value ==> !EndsAt(excs[j], text, end)
    ensures r.None? ==> forall j :: k <= j < |excs| ==> !EndsAt(excs[j], text, end)
    decreases |excs| - k
  {
    if k == |excs| then None
    else if EndsAt(excs[k], text, end) then Some(k)
    else SearchFrom(excs, text, end, k + 1)
  }

  /** `_search_exception_backward(end, text)`: the first listed exception
      ending at `end`, or the empty string. An empty exception word ends
      everywhere and so hides every word listed after it. */
  function SearchExceptionBackward(excs: seq<string>, end: nat, text: string): (r: string)
    requires end <= |text|
    ensures r != "" ==> r in excs && EndsAt(r, text, end)
    ensures r != "" ==> exists k :: 0 <= k < |excs| && excs[k] == r
                                    && forall j :: 0 <= j < k ==> !EndsAt(excs[j], text, end)
    ensures r == "" ==> forall j :: 0 <= j < |excs| && EndsAt(excs[j], text, end) ==>
                                    exists i :: 0 <= i <= j && excs[i] == ""
  {
    var m := SearchFrom(excs, text, end, 0);
    if m.Some? then
      assert forall j :: 0 <= j < |excs| && EndsAt(excs[j], text, end) ==> m.value <= j;
      excs[m.value]
    else ""
  }

  /** How many characters the backward scan consumes at `end`: the length
      of the exception found there, or one character when none is (or an
      empty word hides the rest). Computed over the word list from `k` on;
      `StepIsSearch` ties it to `SearchExceptionBackward`. */
  function Width(excs: seq<string>, text: string, end: nat, k: nat): (r: nat)
    requires 0 < end <= |text| && k <= |excs|
    ensures 1 <= r <= end
    decreases |excs| - k
  {
    if k == |excs| then 1
    else if EndsAt(excs[k], text, end) then (if excs[k] == "" then 1 else |excs[k]|)
    else Width(excs, text, end, k + 1)
  }

  function Step(excs: seq<string>, text: string, end: nat): (r: nat)
    requires 0 < end <= |text|
    ensures 1 <= r <= end
  {
    Width(excs, text, end, 0)
  }

  lemma {:induction false} WidthIsSearch(excs: seq<string>, text: string, end: nat, k: nat)
    requires 0 < end <= |text| && k <= |excs|
    ensures var m := SearchFrom(excs, text, end, k);
      Width(excs, text, end, k) == if m.None? || excs[m.value] == "" then 1 else |excs[m.value]|
    decreases |excs| - k
  {
    if k < |excs| && !EndsAt(excs[k], text, end) {
      WidthIsSearch(excs, text, end, k + 1);
    }
  }

  /** The scan steps over the exception `_search_exception_backward` finds,
      or over one character when it finds none. */
  lemma StepIsSearch(excs: seq<string>, text: string, end: nat)
    requires 0 < end <= |text|
    ensures var ex := SearchExceptionBackward(excs, end, text);
      Step(excs, text, end) == if ex == "" then 1 else |ex|
  {
    WidthIsSearch(excs, text, end, 0);
  }

  /** The `get_characters` loop over `text[..n]`: parts collected from the
      end, so the list is in reverse reading order. */
  function BackwardFrom(excs: seq<string>, text: string, n: nat): (r: seq<string>)
    requires n <= |text|
    ensures Concat(Reverse(r)) == text[..n]
    ensures forall i :: 0 <= i < |r| ==> |r[i]| >= 1 && (|r[i]| == 1 || r[i] in excs)
    decreases n
  {
    if n == 0 then []
    else
      var c := Step(excs, text, n);
      var rest := BackwardFrom(excs, text, n - c);
      StepPart(excs, text, n);
      PrependPart(text, n, c, rest);
      [text[n - c..n]] + rest
  }

  /** The part a step takes is one character or a listed exception. */
  lemma StepPart(excs: seq<string>, text: string, n: nat)
    requires 0 < n <= |text|
    ensures var c := Step(excs, text, n);
      |text[n - c..n]| == 1 || text[n - c..n] in excs
  {
    StepIsSearch(excs, text, n);
  }

  /** Adding the part that ends at `n` in front of the parts of
      `text[..n - c]` (kept last first) gives the parts of `text[..n]`. */
  lemma PrependPart(text: string, n: nat, c: nat, rest: seq<string>)
    requires 0 < c <= n <= |text|
    requires Concat(Reverse(rest)) == text[..n - c]
    ensures Concat(Reverse([text[n - c..n]] + rest)) == text[..n]
  {
    var piece := text[n - c..n];
    ReverseAppend([piece], rest);
    assert Reverse([piece]) == [piece];
    ConcatAppend(Reverse(rest), [piece]);
    ConcatSingle(piece);
    assert text[..n] == text[..n - c] + piece;
  }

  /** `get_characters(text)` of textutil.py. */
  function GetCharacters(excs: seq<string>, text: string): (r: seq<string>)
    ensures Concat(Reverse(r)) == text
    ensures forall i :: 0 <= i < |r| ==> |r[i]| >= 1 && (|r[i]| == 1 || r[i] in excs)
  {
    assert text[..|text|] == text;
    BackwardFrom(excs, text, |text|)
  }

  /** `is_joined(str0, str1)`: the last letter of the first string joins
      to the first character of the second. */
  predicate IsJoined(s0: string, s1: string)
  {
    |s0| > 0 && |s1| > 0 && s0[|s0| - 1] in JOINABLES && s1[0] !in NON_JOINABLES
  }

  /** Cutting the text at `n`, the two halves are joined exactly when the
      cut lies strictly inside the text, the letter before it is joinable
      and the character after it is not a non-joinable one; in particular
      never at either end of the text nor before a space. */
  lemma JoinedAtCut(text: string, n: nat)
    requires n <= |text|
    ensures IsJoined(text[..n], text[n..]) <==>
      0 < n < |text| && text[n - 1] in JOINABLES && text[n] !in NON_JOINABLES
    ensures n < |text| && text[n] == ' ' ==> !IsJoined(text[..n], text[n..])
  {
    if 0 < n < |text| {
      assert text[..n][n - 1] == text[n - 1];
      assert text[n..][0] == text[n];
    }
    if n < |text| && text[n] == ' ' {
      assert NON_JOINABLES[0] == ' ';
    }
  }

  /** The prefix lengths `reduce` keeps: trailing spaces are skipped and
      each exception ending at a kept position is stepped over whole. */
  function Cuts(excs: seq<string>, text: string, n: nat): (r: seq<nat>)
    requires n <= |text|
    ensures forall k :: 0 <= k < |r| ==> 0 < r[k] <= n && text[r[k] - 1] != ' '
    ensures forall k :: 0 <= k < |r| - 1 ==> r[k] > r[k + 1]
    decreases n
  {
    if n == 0 then []
    else if text[n - 1] == ' ' then Cuts(excs, text, n - 1)
    else [n] + Cuts(excs, text, n - Step(excs, text, n))
  }

  /** Only spaces are skipped: past the first cut (or everywhere, when there
      is none) the text is blank. */
  lemma {:induction false} CutsSkipOnlySpaces(excs: seq<string>, text: string, n: nat)
    requires n <= |text|
    ensures var r := Cuts(excs, text, n);
      forall i :: (if |r| > 0 then r[0] else 0) <= i < n ==> text[i] == ' '
    decreases n
  {
    if n > 0 && text[n - 1] == ' ' {
      CutsSkipOnlySpaces(excs, text, n - 1);
    }
  }

  /** One item of `reduce`: the prefix up to a cut, with a trailing joiner
      when the cut falls inside a joined pair of letters. */
  function Item(text: string, m: nat): string
    requires m <= |text|
  {
    text[..m] + (if IsJoined(text[..m], text[m..]) then [JOINER] else [])
  }

  /** `reduce(text)`: the prefixes of the text from the longest down. */
  function Reduce(excs: seq<string>, text: string): (r: seq<string>)
    ensures var cuts := Cuts(excs, text, |text|);
      |r| == |cuts|
      && forall k :: 0 <= k < |r| ==>
        (cuts[k] <= |r[k]| && r[k][..cuts[k]] == text[..cuts[k]]
         && (|r[k]| == cuts[k] + 1 <==> IsJoined(text[..cuts[k]], text[cuts[k]..]))
         && (|r[k]| != cuts[k] ==> |r[k]| == cuts[k] + 1 && r[k][cuts[k]] == JOINER))
  {
    var cuts := Cuts(excs, text, |text|);
    seq(|cuts|, k requires 0 <= k < |cuts| => Item(text, cuts[k]))
  }

  lemma CutsUnfold(excs: seq<string>, text: string, n: nat)
    requires 0 < n <= |text| && text[n - 1] != ' '
    ensures Cuts(excs, text, n) == [n] + Cuts(excs, text, n - Step(excs, text, n))
  {
  }

  lemma BackwardUnfold(excs: seq<string>, text: string, n: nat)
    requires 0 < n <= |text|
    ensures var c := Step(excs, text, n);
      BackwardFrom(excs, text, n) == [text[n - c..n]] + BackwardFrom(excs, text, n - c)
  {
  }

  /** Cut `k` is where part `k` of a backward split of `text[..n]` ends. */
  predicate CutsAlign(cuts: seq<nat>, parts: seq<string>, n: nat)
  {
    |cuts| == |parts|
    && (|cuts| > 0 ==> cuts[0] == n && cuts[|cuts| - 1] == |parts[|parts| - 1]|)
    && forall k :: 0 <= k < |cuts| - 1 ==> cuts[k + 1] == cuts[k] - |parts[k]|
  }

  /** Putting one more part in front keeps cuts and parts aligned. */
  lemma AlignCons(cuts: seq<nat>, parts: seq<string>, n: nat, piece: string)
    requires 0 < |piece| <= n
    requires CutsAlign(cuts, parts, n - |piece|)
    requires |cuts| == 0 ==> n == |piece|
    ensures CutsAlign([n] + cuts, [piece] + parts, n)
  {
    var cs, ps := [n] + cuts, [piece] + parts;
    if |cuts| > 0 {
      assert cs[|cs| - 1] == cuts[|cuts| - 1] && ps[|ps| - 1] == parts[|parts| - 1];
    }
    forall k | 0 <= k < |cs| - 1
      ensures cs[k + 1] == cs[k] - |ps[k]|
    {
      if k > 0 {
        assert cs[k] == cuts[k - 1] && cs[k + 1] == cuts[k] && ps[k] == parts[k - 1];
      }
    }
  }

  /** The positions the backward scan of `text[..n]` passes through,
      from `n` down. */
  function Marks(excs: seq<string>, text: string, n: nat): seq<nat>
    requires n <= |text|
    decreases n
  {
    if n == 0 then [] else [n] + Marks(excs, text, n - Step(excs, text, n))
  }

  /** Without spaces `reduce` cuts at every position the scan passes. */
  lemma {:induction false} CutsAreMarks(excs: seq<string>, text: string, n: nat)
    requires n <= |text|
    requires forall m :: 0 <= m < n ==> text[m] != ' '
    ensures Cuts(excs, text, n) == Marks(excs, text, n)
    decreases n
  {
    if n > 0 {
      CutsUnfold(excs, text, n);
      CutsAreMarks(excs, text, n - Step(excs, text, n));
    }
  }

  /** The scan positions are where the backward parts end. */
  lemma {:induction false} MarksAlign(excs: seq<string>, text: string, n: nat)
    requires n <= |text|
    ensures CutsAlign(Marks(excs, text, n), BackwardFrom(excs, text, n), n)
    decreases n
  {
    if n == 0 {
      assert Marks(excs, text, n) == [] && BackwardFrom(excs, text, n) == [];
    } else {
      var c := Step(excs, text, n);
      var marks, parts := Marks(excs, text, n - c), BackwardFrom(excs, text, n - c);
      var piece := text[n - c..n];
      MarksAlign(excs, text, n - c);
      if n - c > 0 {
        assert |marks| > 0;
      }
      AlignCons(marks, parts, n, piece);
      BackwardUnfold(excs, text, n);
      assert Marks(excs, text, n) == [n] + marks;
      assert BackwardFrom(excs, text, n) == [piece] + parts;
    }
  }

  /** Without spaces the prefixes of `reduce` end exactly where the parts
      of `get_characters` begin: the first cut is the whole text and each
      next cut lies one part further left. */
  lemma CutsFollowParts(excs: seq<string>, text: string, n: nat)
    requires n <= |text|
    requires forall m :: 0 <= m < n ==> text[m] != ' '
    ensures CutsAlign(Cuts(excs, text, n), BackwardFrom(excs, text, n), n)
  {
    CutsAreMarks(excs, text, n);
    MarksAlign(excs, text, n);
  }

  /** Python's `str.count` for one character. */
  function CountChar(c: char, s: string): (r: nat)
    ensures r <= |s|
  {
    if |s| == 0 then 0 else CountChar(c, s[..|s| - 1]) + (if s[|s| - 1] == c then 1 else 0)
  }

  /** The set of characters of a word, `set(tup)`. */
  function Letters(w: string): set<char>
  {
    set i | 0 <= i < |w| :: w[i]
  }

  lemma {:induction false} LettersCardinality(w: string)
    ensures |Letters(w)| <= |w|
    ensures |Letters(w)| == |w| <==> Distinct(w)
    decreases |w|
  {
    if |w| > 0 {
      var init := w[..|w| - 1];
      var last := w[|w| - 1];
      LettersCardinality(init);
      assert Letters(w) == Letters(init) + {last} by {
        forall x | x in Letters(w) ensures x in Letters(init) + {last} {
          var i :| 0 <= i < |w| && w[i] == x;
          if i < |w| - 1 { assert init[i] == x; }
        }
        forall x | x in Letters(init) ensures x in Letters(w) {
          var i :| 0 <= i < |init| && init[i] == x;
          assert w[i] == x;
        }
      }
      if last in Letters(init) {
        var i :| 0 <= i < |init| && init[i] == last;
        assert w[i] == w[|w| - 1];
        assert !Distinct(w);
      } else {
        assert Distinct(w) <==> Distinct(init) by {
          if Distinct(init) {
            forall i, j | 0 <= i < j < |w| ensures w[i] != w[j] {
              if j < |w| - 1 {
                assert w[i] == init[i] && w[j] == init[j];
              } else {
                assert w[i] == init[i] && init[i] in Letters(init);
              }
            }
          }
          if Distinct(w) {
            forall i, j | 0 <= i < j < |init| ensures init[i] != init[j] {
              assert init[i] == w[i] && init[j] == w[j];
            }
          }
        }
      }
    }
  }

  /** All words `letters` can spell with exactly `length` letters, the
      tuples of `product(letters, repeat=length)` joined. */
  function Words(letters: string, length: nat): (r: set<string>)
    ensures forall w :: w in r <==> |w| == length && forall i :: 0 <= i < |w| ==> w[i] in letters
    decreases length
  {
    if length == 0 then {""}
    else
      var shorter := Words(letters, length - 1);
      var r := set w, c | w in shorter && c in letters :: w + [c];
      assert forall w :: |w| == length && (forall i :: 0 <= i < |w| ==> w[i] in letters) ==> w in r by {
        forall w | |w| == length && (forall i :: 0 <= i < |w| ==> w[i] in letters)
          ensures w in r
        {
          var init := w[..|w| - 1];
          assert init in shorter;
          assert w == init + [w[|w| - 1]];
        }
      }
      r
  }

  /** `get_words_of_length(length, repetition, letters)`: every word of the
      given length over the letters; with `repetition` set (despite its
      name) only the words whose letters are pairwise different. */
  function WordsOfLength(length: nat, repetition: bool, letters: string): (r: set<string>)
    ensures forall w :: w in r <==>
      |w| == length && (forall i :: 0 <= i < |w| ==> w[i] in letters) && (repetition ==> Distinct(w))
  {
    var all := Words(letters, length);
    if repetition then
      var r := set w | w in all && |Letters(w)| == length;
      assert forall w :: w in all ==> (|Letters(w)| == length <==> Distinct(w)) by {
        forall w | w in all ensures |Letters(w)| == length <==> Distinct(w) {
          LettersCardinality(w);
        }
      }
      r
    else all
  }
}
