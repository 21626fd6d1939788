/** Post-processing of detector output (percato/predict.py): entries are
    grouped by image, each group is ordered by the left edge of its box,
    and confident entries are mapped back to their glyphs through
    `LABEL_MAP`. */
module Predict {
  import opened Wrappers
  import opened Seqs

  /** One detection: the fields of the JSON entry the code reads. `x` is
      `bbox[0]`. */
  datatype Entry = Entry(imageId: int, categoryId: int, x: real, score: real)

  /** The keys of `LABEL_MAP` in insertion order; the value of key `i` is
      `i`. */
  const LABEL_KEYS: seq<string> := [
      "\U{FE8E}", "\U{FE90}", "\U{FE91}", "\U{FE96}", "\U{FE97}", "\U{FE9A}",
      "\U{FE9B}", "\U{FE9E}", "\U{FE9F}", "\U{FEA2}", "\U{FEA3}", "\U{FEA6}",
      "\U{FEA7}", "\U{FEAA}", "\U{FEAC}", "\U{FEAE}", "\U{FEB0}", "\U{FEB2}",
      "\U{FEB3}", "\U{FEB6}", "\U{FEB7}", "\U{FEBA}", "\U{FEBB}", "\U{FEBE}",
      "\U{FEBF}", "\U{FEC2}", "\U{FEC6}", "\U{FEC9}", "\U{FECA}", "\U{FECB}",
      "\U{FECC}", "\U{FECD}", "\U{FECE}", "\U{FECF}", "\U{FED0}", "\U{FED2}",
      "\U{FED3}", "\U{FED6}", "\U{FED7}", "\U{FED8}", "\U{FEDA}", "\U{FEDB}",
      "\U{FEDE}", "\U{FEDF}", "\U{FEE0}", "\U{FEE2}", "\U{FEE3}", "\U{FEE6}",
      "\U{FEE7}", "\U{FEE9}", "\U{FEEA}", "\U{FEEB}", "\U{FEEC}", "\U{FEEE}",
      "\U{FBFC}", "\U{FBFE}", "\U{FB57}", "\U{FB58}", "\U{FB7B}", "\U{FB7C}",
      "\U{FB8B}", "\U{FB93}", "\U{FB94}", "\U{FE8B}", "\U{FE81}", "\U{0644}\U{0627}"]

  /** `LABEL_MAP.items()`. */
  function LabelItems(): (r: seq<(string, int)>)
    ensures |r| == 66 && forall i :: 0 <= i < 66 ==> r[i] == (LABEL_KEYS[i], i)
  {
    seq(|LABEL_KEYS|, i requires 0 <= i < |LABEL_KEYS| => (LABEL_KEYS[i], i))
  }

  /** `search_keys_by_val(dict, byVal)`: the loop keeps overwriting `key`,
      so the last key with the value is returned; with none, `key` is never
      bound and the return raises (`None` here). */
  function SearchKeysByVal(items: seq<(string, int)>, v: int): (r: Option<string>)
    ensures r.None? <==> forall i :: 0 <= i < |items| ==> items[i].1 != v
    ensures r.Some? ==> exists i :: (0 <= i < |items| && items[i] == (r.value, v)
                                     && forall j :: i < j < |items| ==> items[j].1 != v)
  {
    if |items| == 0 then None
    else if items[|items| - 1].1 == v then Some(items[|items| - 1].0)
    else
      var r := SearchKeysByVal(items[..|items| - 1], v);
      LaterKeyMisses(items, v, r);
      r
  }

  /** A key found before the last item, whose value differs, is still the
      last key carrying the value. */
  lemma LaterKeyMisses(items: seq<(string, int)>, v: int, r: Option<string>)
    requires |items| > 0 && items[|items| - 1].1 != v
    requires var init := items[..|items| - 1];
      (r.None? <==> forall i :: 0 <= i < |init| ==> init[i].1 != v)
      && (r.Some? ==> exists i :: (0 <= i < |init| && init[i] == (r.value, v)
                                   && forall j :: i < j < |init| ==> init[j].1 != v))
    ensures r.None? <==> forall i :: 0 <= i < |items| ==> items[i].1 != v
    ensures r.Some? ==> exists i :: (0 <= i < |items| && items[i] == (r.value, v)
                                     && forall j :: i < j < |items| ==> items[j].1 != v)
  {
    var init := items[..|items| - 1];
    assert forall i :: 0 <= i < |init| ==> init[i] == items[i];
    if r.Some? {
      var i :| 0 <= i < |init| && init[i] == (r.value, v) && forall j :: i < j < |init| ==> init[j].1 != v;
      assert items[i] == (r.value, v);
    }
  }

  /** On `LABEL_MAP` the search is the inverse of the map: value `v` in
      `0..65` gives back the key stored with it, and any other value has no
      key. */
  lemma LabelSearchIsInverse(v: int)
    ensures 0 <= v < 66 ==> SearchKeysByVal(LabelItems(), v) == Some(LABEL_KEYS[v])
    ensures !(0 <= v < 66) ==> SearchKeysByVal(LabelItems(), v).None?
  {
    var items := LabelItems();
    var r := SearchKeysByVal(items, v);
    if 0 <= v < 66 {
      assert items[v].1 == v;
      var i :| 0 <= i < |items| && items[i] == (r.value, v) && forall j :: i < j < |items| ==> items[j].1 != v;
      assert i == v;
    }
  }

  /** `sensitivity`: entries at or below 0.7 are dropped. For scores that
      are doubles, `score > 0.7` on doubles and on exact reals agree, since
      no double lies between the double nearest 0.7 and 0.7. */
  const SENSITIVITY: real := 0.7

  datatype PredictError = UnboundKey(categoryId: int) | IndexError(imageId: int)

  /** The confident entries, in order. */
  function Confident(word: seq<Entry>): (r: seq<Entry>)
    ensures forall e :: e in r ==> e in word && e.score > SENSITIVITY
    ensures forall e :: e in word && e.score > SENSITIVITY ==> e in r
  {
    if |word| == 0 then []
    else
      var init := Confident(word[..|word| - 1]);
      var last := word[|word| - 1];
      LastSplit(word);
      if last.score > SENSITIVITY then init + [last] else init
  }

  /** Filtering keeps every confident entry as often as the word has it. */
  lemma {:induction false} ConfidentCounts(word: seq<Entry>)
    ensures forall e :: multiset(Confident(word))[e] == if e.score > SENSITIVITY then multiset(word)[e] else 0
    decreases |word|
  {
    if |word| > 0 {
      var init, last := word[..|word| - 1], word[|word| - 1];
      ConfidentCounts(init);
      assert word == init + [last];
      assert multiset(word) == multiset(init) + multiset{last};
    }
  }

  /** Filtering a concatenation filters each half, so the kept entries stay
      in input order. */
  lemma {:induction false} ConfidentSplit(a: seq<Entry>, b: seq<Entry>)
    ensures Confident(a + b) == Confident(a) + Confident(b)
    decreases |b|
  {
    if |b| == 0 {
      assert a + b == a;
    } else {
      var init := b[..|b| - 1];
      ConfidentSplit(a, init);
      assert (a + b)[..|a + b| - 1] == a + init;
      assert (a + b)[|a + b| - 1] == b[|b| - 1];
    }
  }

  /** `show_word(word)`: the glyphs of the confident entries, in order. */
  function ShowWord(word: seq<Entry>): (r: Result<seq<string>, PredictError>)
    ensures r.Failure? <==> exists e :: e in Confident(word) && !(0 <= e.categoryId < 66)
    ensures r.Success? ==> (|r.value| == |Confident(word)|
                            && forall i :: 0 <= i < |r.value| ==> r.value[i] == LABEL_KEYS[Confident(word)[i].categoryId])
  {
    GlyphsSpec(LabelItems(), Confident(word));
    LabelLookup();
    Glyphs(LabelItems(), Confident(word))
  }

  /** The glyph of every entry, looked up in `items`; the first entry
      without a key stops the lookup. */
  function Glyphs(items: seq<(string, int)>, entries: seq<Entry>): Result<seq<string>, PredictError>
  {
    if |entries| == 0 then Success([])
    else
      var init :- Glyphs(items, entries[..|entries| - 1]);
      var last := entries[|entries| - 1];
      match SearchKeysByVal(items, last.categoryId)
      case None => Failure(UnboundKey(last.categoryId))
      case Some(glyph) => Success(init + [glyph])
  }

  /** The lookup fails exactly when some entry has no key, and otherwise
      gives each entry's key in order. */
  lemma {:induction false} GlyphsSpec(items: seq<(string, int)>, entries: seq<Entry>)
    ensures var r := Glyphs(items, entries);
      (r.Failure? <==> exists e :: e in entries && SearchKeysByVal(items, e.categoryId).None?)
      && (r.Success? ==> (|r.value| == |entries|
                          && forall i :: 0 <= i < |r.value| ==>
                               SearchKeysByVal(items, entries[i].categoryId) == Some(r.value[i])))
    decreases |entries|
  {
    if |entries| > 0 {
      var front, last := entries[..|entries| - 1], entries[|entries| - 1];
      GlyphsSpec(items, front);
      LastSplit(entries);
      var r := Glyphs(items, entries);
      if r.Success? {
        var init := Glyphs(items, front).value;
        assert r.value == init + [SearchKeysByVal(items, last.categoryId).value];
        forall i | 0 <= i < |r.value|
          ensures SearchKeysByVal(items, entries[i].categoryId) == Some(r.value[i])
        {
          if i < |init| {
            assert entries[i] == front[i] && r.value[i] == init[i];
          }
        }
      }
    }
  }

  /** `search_keys_by_val` over `LABEL_MAP` for every value at once. */
  lemma LabelLookup()
    ensures forall v :: SearchKeysByVal(LabelItems(), v) == if 0 <= v < 66 then Some(LABEL_KEYS[v]) else None
  {
    forall v
      ensures SearchKeysByVal(LabelItems(), v) == if 0 <= v < 66 then Some(LABEL_KEYS[v]) else None
    {
      LabelSearchIsInverse(v);
    }
  }

  /** The members of a non-empty list are those of its front and its last. */
  lemma LastSplit(entries: seq<Entry>)
    requires |entries| > 0
    ensures forall e :: e in entries <==> e in entries[..|entries| - 1] || e == entries[|entries| - 1]
  {
    assert entries == entries[..|entries| - 1] + [entries[|entries| - 1]];
  }

  /** The entries whose left edge is `x`, in order: the relative order a
      stable sort keeps. */
  function AtX(s: seq<Entry>, x: real): (r: seq<Entry>)
  {
    if |s| == 0 then [] else AtX(s[..|s| - 1], x) + (if s[|s| - 1].x == x then [s[|s| - 1]] else [])
  }

  lemma {:induction false} AtXAppend(a: seq<Entry>, b: seq<Entry>, x: real)
    ensures AtX(a + b, x) == AtX(a, x) + AtX(b, x)
    decreases |b|
  {
    if |b| == 0 {
      assert a + b == a;
    } else {
      assert (a + b)[..|a + b| - 1] == a + b[..|b| - 1];
      AtXAppend(a, b[..|b| - 1], x);
    }
  }

  /** Exchanging two neighbours with different left edges keeps every
      group of equal left edges in order. */
  lemma SwapKeepsGroups(a: seq<Entry>, j: nat, x: real)
    requires j + 1 < |a| && a[j].x != a[j + 1].x
    ensures AtX(a[j := a[j + 1]][j + 1 := a[j]], x) == AtX(a, x)
  {
    var b := a[j := a[j + 1]][j + 1 := a[j]];
    assert a == a[..j] + [a[j], a[j + 1]] + a[j + 2..];
    assert b == a[..j] + [a[j + 1], a[j]] + a[j + 2..];
    AtXAppend(a[..j] + [a[j], a[j + 1]], a[j + 2..], x);
    AtXAppend(a[..j], [a[j], a[j + 1]], x);
    AtXAppend(a[..j] + [a[j + 1], a[j]], a[j + 2..], x);
    AtXAppend(a[..j], [a[j + 1], a[j]], x);
    assert [a[j], a[j + 1]] == [a[j]] + [a[j + 1]];
    assert [a[j + 1], a[j]] == [a[j + 1]] + [a[j]];
    AtXAppend([a[j]], [a[j + 1]], x);
    AtXAppend([a[j + 1]], [a[j]], x);
  }

  /** Reversing reverses every group. */
  lemma {:induction false} AtXReverse(s: seq<Entry>, x: real)
    ensures AtX(Reverse(s), x) == Reverse(AtX(s, x))
    decreases |s|
  {
    if |s| > 0 {
      var init, last := s[..|s| - 1], s[|s| - 1];
      assert Reverse(s) == [last] + Reverse(init);
      AtXReverse(init, x);
      AtXAppend([last], Reverse(init), x);
      assert AtX([last], x) == (if last.x == x then [last] else []) by {
        assert [last][..0] == [];
      }
      ReverseAppend(AtX(init, x), if last.x == x then [last] else []);
    }
  }

  /** `a[m..]` is in ascending order and nothing before `m` is larger. */
  predicate SortedFrom(a: seq<Entry>, m: nat)
  {
    (forall p, q :: m <= p < q < |a| ==> a[p].x <= a[q].x)
    && (forall p, q :: 0 <= p < m <= q < |a| ==> a[p].x <= a[q].x)
  }

  predicate Ascending(a: seq<Entry>)
  {
    forall p, q :: 0 <= p < q < |a| ==> a[p].x <= a[q].x
  }

  /** The stored groups of equal left edges, as in `word`. */
  ghost predicate SameGroups(a: seq<Entry>, word: seq<Entry>)
  {
    forall x :: AtX(a, x) == AtX(word, x)
  }

  /** Exchange of `a[j]` and `a[j + 1]`. */
  function Swap(a: seq<Entry>, j: nat): (r: seq<Entry>)
    requires j + 1 < |a|
    ensures |r| == |a| && multiset(r) == multiset(a)
    ensures forall x :: a[j].x != a[j + 1].x ==> AtX(r, x) == AtX(a, x)
  {
    var r := a[j := a[j + 1]][j + 1 := a[j]];
    forall x | a[j].x != a[j + 1].x
      ensures AtX(r, x) == AtX(a, x)
    {
      SwapKeepsGroups(a, j, x);
    }
    r
  }

  /** One step of a pass: after comparing `a[j]` with `a[j + 1]` (and
      exchanging them when out of order) the larger sits at `j + 1`, and
      the sorted suffix from `m` is untouched. */
  lemma PassStep(a: seq<Entry>, j: nat, m: nat)
    requires j + 1 < m <= |a| && SortedFrom(a, m)
    requires forall p :: 0 <= p <= j ==> a[p].x <= a[j].x
    ensures var b := if a[j].x > a[j + 1].x then Swap(a, j) else a;
      SortedFrom(b, m) && forall p :: 0 <= p <= j + 1 ==> b[p].x <= b[j + 1].x
  {
  }

  /** `a` holds the entries of `word`, with every group of equal left
      edges in its original order. */
  ghost predicate Rearranged(a: seq<Entry>, word: seq<Entry>)
  {
    multiset(a) == multiset(word) && SameGroups(a, word)
  }

  /** The order of a pass over `a[..m]` after `j` comparisons: the suffix
      from `m` is sorted, `a[j]` is the largest so far, and a pass that has
      not exchanged yet has seen an ascending prefix. */
  predicate PassOrder(a: seq<Entry>, j: nat, m: nat, sorted: bool)
  {
    j < m <= |a| && SortedFrom(a, m)
    && (forall p :: 0 <= p <= j ==> a[p].x <= a[j].x)
    && (sorted ==> forall p, q :: 0 <= p < q <= j ==> a[p].x <= a[q].x)
  }

  /** The comparison of `a[j]` with `a[j + 1]`, exchanging them when out of
      order: the new list and whether the pass is still without exchanges. */
  function Compare(a: seq<Entry>, j: nat, sorted: bool): (r: (seq<Entry>, bool))
    requires j + 1 < |a|
    ensures |r.0| == |a|
  {
    if a[j].x > a[j + 1].x then (Swap(a, j), false) else (a, sorted)
  }

  /** The order of a pass survives one comparison. */
  lemma OrderKeeps(a: seq<Entry>, j: nat, m: nat, sorted: bool)
    requires j + 1 < m && PassOrder(a, j, m, sorted)
    ensures var r := Compare(a, j, sorted); PassOrder(r.0, j + 1, m, r.1)
  {
    PassStep(a, j, m);
  }

  /** A comparison only ever exchanges entries with different left edges. */
  lemma CompareRearranges(a: seq<Entry>, word: seq<Entry>, j: nat, sorted: bool)
    requires j + 1 < |a| && Rearranged(a, word)
    ensures Rearranged(Compare(a, j, sorted).0, word)
  {
  }

  /** A pass that exchanged nothing leaves the whole sequence ascending. */
  lemma QuietPassSorts(a: seq<Entry>, m: nat)
    requires 1 <= m <= |a| && SortedFrom(a, m)
    requires forall p, q :: 0 <= p < q <= m - 1 ==> a[p].x <= a[q].x
    ensures Ascending(a)
  {
  }

  /** One bubble pass over `a[..n - i]`, exchanging neighbours whose left
      edges are out of order; `sorted` is `already_sorted`. */
  method BubblePass(a0: seq<Entry>, word: seq<Entry>, i: nat) returns (a: seq<Entry>, sorted: bool)
    requires i < |a0| && SortedFrom(a0, |a0| - i)
    requires multiset(a0) == multiset(word) && SameGroups(a0, word)
    ensures |a| == |a0| && SortedFrom(a, |a| - i - 1)
    ensures multiset(a) == multiset(word) && SameGroups(a, word)
    ensures sorted ==> Ascending(a)
  {
    a := a0;
    sorted := true;
    var n, m := |a|, |a| - i;
    for j := 0 to m - 1
      invariant |a| == n && PassFrom(a, j, m, sorted) == PassFrom(a0, 0, m, true)
    {
      a, sorted := Compare(a, j, sorted).0, Compare(a, j, sorted).1;
    }
    PassFromOrder(a0, 0, m, true);
    PassFromRearranges(a0, word, 0, m, true);
    PassDone(a, m, sorted);
  }

  /** The rest of a pass over `a[..m]` from comparison `j` on: the list and
      whether nothing was exchanged. */
  function PassFrom(a: seq<Entry>, j: nat, m: nat, sorted: bool): (seq<Entry>, bool)
    requires j < m <= |a|
    decreases m - j
  {
    if j + 1 == m then (a, sorted)
    else
      var r := Compare(a, j, sorted);
      PassFrom(r.0, j + 1, m, r.1)
  }

  lemma {:induction false} PassFromOrder(a: seq<Entry>, j: nat, m: nat, sorted: bool)
    requires PassOrder(a, j, m, sorted)
    ensures var r := PassFrom(a, j, m, sorted);
      |r.0| == |a| && PassOrder(r.0, m - 1, m, r.1)
    decreases m - j
  {
    if j + 1 < m {
      var r := Compare(a, j, sorted);
      OrderKeeps(a, j, m, sorted);
      PassFromOrder(r.0, j + 1, m, r.1);
    }
  }

  lemma {:induction false} PassFromRearranges(a: seq<Entry>, word: seq<Entry>, j: nat, m: nat, sorted: bool)
    requires j < m <= |a| && Rearranged(a, word)
    ensures Rearranged(PassFrom(a, j, m, sorted).0, word)
    decreases m - j
  {
    if j + 1 < m {
      var r := Compare(a, j, sorted);
      CompareRearranges(a, word, j, sorted);
      PassFromRearranges(r.0, word, j + 1, m, r.1);
    }
  }

  /** At the end of a pass over `a[..m]` the sorted suffix has grown by
      one, and a pass without exchanges has sorted everything. */
  lemma PassDone(a: seq<Entry>, m: nat, sorted: bool)
    requires 1 <= m && PassOrder(a, m - 1, m, sorted)
    ensures SortedFrom(a, m - 1)
    ensures sorted ==> Ascending(a)
  {
    PassEnd(a, m);
    if sorted {
      QuietPassSorts(a, m);
    }
  }

  /** After a pass over `a[..m]` the largest of them sits at `m - 1`, so the
      sorted suffix grows by one. */
  lemma PassEnd(a: seq<Entry>, m: nat)
    requires 1 <= m <= |a| && SortedFrom(a, m)
    requires forall p :: 0 <= p <= m - 1 ==> a[p].x <= a[m - 1].x
    ensures SortedFrom(a, m - 1)
  {
  }

  /** `sort_word(word)`: bubble passes until one exchanges nothing (at most
      `len(word)` of them), then the reversed list. The result is a
      permutation, ordered from the rightmost left edge to the leftmost,
      and entries with equal left edges come out in the reverse of their
      input order, since a pass never exchanges equal edges. */
  method SortWord(word: seq<Entry>) returns (r: seq<Entry>)
    ensures multiset(r) == multiset(word)
    ensures forall p, q :: 0 <= p < q < |r| ==> r[p].x >= r[q].x
    ensures forall x :: AtX(r, x) == Reverse(AtX(word, x))
  {
    var a := word;
    var n := |word|;
    var i := 0;
    var done := false;
    while i < n && !done
      invariant 0 <= i <= n && |a| == n
      invariant SortedFrom(a, n - i)
      invariant done ==> Ascending(a)
      invariant multiset(a) == multiset(word) && SameGroups(a, word)
    {
      var sorted;
      a, sorted := BubblePass(a, word, i);
      done := sorted;
      i := i + 1;
    }
    r := Reverse(a);
    forall x
      ensures AtX(r, x) == Reverse(AtX(word, x))
    {
      AtXReverse(a, x);
    }
    assert multiset(r) == multiset(a) by {
      ReverseMultiset(a);
    }
  }

  lemma {:induction false} ReverseMultiset(s: seq<Entry>)
    ensures multiset(Reverse(s)) == multiset(s)
    decreases |s|
  {
    if |s| > 0 {
      var init, last := s[..|s| - 1], s[|s| - 1];
      ReverseMultiset(init);
      assert Reverse(s) == [last] + Reverse(init);
      assert multiset(Reverse(s)) == multiset{last} + multiset(Reverse(init));
      assert s == init + [last];
      assert multiset(s) == multiset(init) + multiset{last};
    }
  }

  /** The entries of image `n`, in input order. */
  function OfImage(dump: seq<Entry>, n: int): (r: seq<Entry>)
    ensures forall e :: e in r <==> e in dump && e.imageId == n
  {
    if |dump| == 0 then []
    else
      var rest := OfImage(dump[1..], n);
      assert forall e :: e in dump <==> e == dump[0] || e in dump[1..];
      (if dump[0].imageId == n then [dump[0]] else []) + rest
  }

  /** Every entry of image `n` is kept as often as the dump has it. */
  lemma {:induction false} OfImageCounts(dump: seq<Entry>, n: int)
    ensures forall e :: multiset(OfImage(dump, n))[e] == if e.imageId == n then multiset(dump)[e] else 0
    decreases |dump|
  {
    if |dump| > 0 {
      OfImageCounts(dump[1..], n);
      assert dump == [dump[0]] + dump[1..];
      assert multiset(dump) == multiset{dump[0]} + multiset(dump[1..]);
    }
  }

  /** Selecting from a concatenation selects from each half, so the entries
      stay in input order. */
  lemma {:induction false} OfImageSplit(a: seq<Entry>, b: seq<Entry>, n: int)
    ensures OfImage(a + b, n) == OfImage(a, n) + OfImage(b, n)
    decreases |a|
  {
    if |a| == 0 {
      assert a + b == b;
    } else {
      OfImageSplit(a[1..], b, n);
      assert (a + b)[0] == a[0];
      assert (a + b)[1..] == a[1..] + b;
    }
  }

  /** The inner loop of `get_words` for word `n`: every entry of image `n`
      is appended to `words[n]`, which raises when `n` is past the list. */
  function AppendImage(words: seq<seq<Entry>>, n: nat, dump: seq<Entry>): Result<seq<seq<Entry>>, PredictError>
    decreases |dump|
  {
    if |dump| == 0 then Success(words)
    else if dump[0].imageId != n then AppendImage(words, n, dump[1..])
    else if n >= |words| then Failure(IndexError(n))
    else AppendImage(words[n := words[n] + [dump[0]]], n, dump[1..])
  }

  /** For a word on the list, the loop appends the entries of its image. */
  lemma {:induction false} AppendInRange(words: seq<seq<Entry>>, n: nat, dump: seq<Entry>)
    requires n < |words|
    ensures AppendImage(words, n, dump) == Success(words[n := words[n] + OfImage(dump, n)])
    decreases |dump|
  {
    if |dump| == 0 {
      assert words[n] + OfImage(dump, n) == words[n];
      assert words[n := words[n]] == words;
    } else if dump[0].imageId != n {
      AppendInRange(words, n, dump[1..]);
      assert OfImage(dump, n) == OfImage(dump[1..], n);
    } else {
      var w' := words[n := words[n] + [dump[0]]];
      AppendInRange(w', n, dump[1..]);
      assert w'[n] + OfImage(dump[1..], n) == words[n] + OfImage(dump, n);
      assert w'[n := w'[n] + OfImage(dump[1..], n)] == words[n := words[n] + OfImage(dump, n)];
    }
  }

  /** For a word past the list, the loop fails exactly when the image has
      an entry, and changes nothing otherwise. */
  lemma {:induction false} AppendPastEnd(words: seq<seq<Entry>>, n: nat, dump: seq<Entry>)
    requires n >= |words|
    ensures AppendImage(words, n, dump).Failure? <==> exists e :: e in dump && e.imageId == n
    ensures AppendImage(words, n, dump).Success? ==> AppendImage(words, n, dump).value == words
    decreases |dump|
  {
    if |dump| > 0 {
      AppendPastEnd(words, n, dump[1..]);
      assert forall e :: e in dump <==> e == dump[0] || e in dump[1..];
    }
  }

  /** The outer loop of `get_words` from word `n` on. */
  function GetWordsFrom(dump: seq<Entry>, n: nat, nWords: int, words: seq<seq<Entry>>)
    : (r: Result<seq<seq<Entry>>, PredictError>)
    decreases nWords - n
  {
    if n >= nWords then Success(words)
    else
      var w :- AppendImage(words, n, dump);
      GetWordsFrom(dump, n + 1, nWords, w)
  }

  /** `get_words(dump, n_words)` as written: the list starts with a single
      empty word. */
  function GetWordsAsWritten(dump: seq<Entry>, nWords: int): Result<seq<seq<Entry>>, PredictError>
  {
    GetWordsFrom(dump, 0, nWords, [[]])
  }

  /** Past word 0 nothing can be appended: the call fails exactly when an
      entry names an image in `1..n_words - 1`, and otherwise returns the
      entries of image 0 as its only word. */
  lemma {:induction false} GetWordsFromPastFirst(dump: seq<Entry>, n: nat, nWords: int, words: seq<seq<Entry>>)
    requires |words| == 1 && n >= 1
    ensures var r := GetWordsFrom(dump, n, nWords, words);
      (r.Failure? <==> exists e :: e in dump && n <= e.imageId < nWords)
      && (r.Success? ==> r.value == words)
    decreases nWords - n
  {
    if n < nWords {
      var w := AppendImage(words, n, dump);
      AppendPastEnd(words, n, dump);
      if w.Success? {
        GetWordsFromPastFirst(dump, n + 1, nWords, w.value);
        if exists e :: e in dump && n <= e.imageId < nWords {
          var e :| e in dump && n <= e.imageId < nWords;
          assert e.imageId == n || n + 1 <= e.imageId < nWords;
        }
      }
    }
  }

  lemma GetWordsAsWrittenResult(dump: seq<Entry>, nWords: int)
    requires nWords >= 1
    ensures var r := GetWordsAsWritten(dump, nWords);
      (r.Failure? <==> exists e :: e in dump && 1 <= e.imageId < nWords)
      && (r.Success? ==> r.value == [OfImage(dump, 0)])
  {
    AppendInRange([[]], 0, dump);
    var w := AppendImage([[]], 0, dump).value;
    assert [] + OfImage(dump, 0) == OfImage(dump, 0);
    assert w == [OfImage(dump, 0)];
    GetWordsFromPastFirst(dump, 1, nWords, w);
    assert GetWordsAsWritten(dump, nWords) == GetWordsFrom(dump, 1, nWords, w);
  }

  /** Two images: the second entry belongs to image 1 and the call fails. */
  lemma GetWordsAsWrittenCounterexample()
    ensures GetWordsAsWritten([Entry(0, 0, 1.0, 0.9), Entry(1, 0, 2.0, 0.9)], 2).Failure?
  {
    GetWordsAsWrittenResult([Entry(0, 0, 1.0, 0.9), Entry(1, 0, 2.0, 0.9)], 2);
    assert Entry(1, 0, 2.0, 0.9) in [Entry(0, 0, 1.0, 0.9), Entry(1, 0, 2.0, 0.9)];
  }

  /** `get_words` with one list per word: word `n` holds the entries of
      image `n`, in input order. */
  function GetWords(dump: seq<Entry>, nWords: nat): (r: seq<seq<Entry>>)
    ensures |r| == nWords
    ensures forall n :: 0 <= n < nWords ==> forall e :: e in r[n] <==> e in dump && e.imageId == n
  {
    seq(nWords, n requires 0 <= n < nWords => OfImage(dump, n))
  }

  /** Word `n` holds each entry of image `n` as often as the dump does, and
      the words of a concatenated dump are the words of its halves joined,
      so each word keeps the input order. */
  lemma GetWordsOrder(a: seq<Entry>, b: seq<Entry>, nWords: nat)
    ensures forall n, e :: 0 <= n < nWords ==>
      multiset(GetWords(a, nWords)[n])[e] == if e.imageId == n then multiset(a)[e] else 0
    ensures forall n :: 0 <= n < nWords ==> GetWords(a + b, nWords)[n] == GetWords(a, nWords)[n] + GetWords(b, nWords)[n]
  {
    forall n | 0 <= n < nWords
      ensures forall e :: multiset(GetWords(a, nWords)[n])[e] == if e.imageId == n then multiset(a)[e] else 0
      ensures GetWords(a + b, nWords)[n] == GetWords(a, nWords)[n] + GetWords(b, nWords)[n]
    {
      OfImageCounts(a, n);
      OfImageSplit(a, b, n);
    }
  }

  /** With one word the two versions agree. */
  lemma GetWordsOneWord(dump: seq<Entry>)
    ensures GetWordsAsWritten(dump, 1) == Success(GetWords(dump, 1))
  {
    GetWordsAsWrittenResult(dump, 1);
    assert GetWords(dump, 1) == [OfImage(dump, 0)];
  }
}
