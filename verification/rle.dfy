/** Run-length encodings of binary masks: `binary_mask_to_rle` of
    textutils.py (the uncompressed `counts`/`size` object of the COCO
    dataset format, runs taken in column-major order) and the pair
    `binary_rle`/`binary_rle_decode` of textutil.py. Both encodings list
    run lengths alternately for zeros and ones, starting with zeros. */
module Rle {
  import opened Wrappers
  import opened Seqs

  /** `n` copies of `v`. */
  function Repeat(v: bool, n: nat): (r: seq<bool>)
    ensures |r| == n && forall i :: 0 <= i < n ==> r[i] == v
  {
    seq(n, _ => v)
  }

  /** The mask value of the `k`-th run when the runs start with value `v`. */
  function RunValue(v: bool, k: nat): bool
  {
    if k % 2 == 0 then v else !v
  }

  /** The reference decoder: `counts[0]` copies of `v`, then `counts[1]`
      copies of the other value, and so on. */
  function Expand(counts: seq<nat>, v: bool): (r: seq<bool>)
    ensures |r| == Sum(counts)
  {
    if |counts| == 0 then []
    else
      var rest := Expand(counts[1..], !v);
      SumFront(counts);
      Repeat(v, counts[0]) + rest
  }

  lemma {:induction false} SumFront(s: seq<int>)
    requires |s| > 0
    ensures Sum(s) == s[0] + Sum(s[1..])
    decreases |s|
  {
    if |s| > 1 {
      SumFront(s[..|s| - 1]);
      assert s[..|s| - 1][1..] == s[1..][..|s[1..]| - 1];
    } else {
      assert s[1..] == [];
    }
  }

  /** COCO decoding: the runs start with zeros. */
  function Decode(counts: seq<nat>): (r: seq<bool>)
    ensures |r| == Sum(counts)
  {
    Expand(counts, false)
  }

  /** Appending one count appends one run, of the value its position gives. */
  lemma {:induction false} ExpandAppend(counts: seq<nat>, v: bool, n: nat)
    ensures Expand(counts + [n], v) == Expand(counts, v) + Repeat(RunValue(v, |counts|), n)
    decreases |counts|
  {
    if |counts| == 0 {
      assert Expand([n], v) == Repeat(v, n) + Expand([], !v);
    } else {
      assert (counts + [n])[1..] == counts[1..] + [n];
      ExpandAppend(counts[1..], !v, n);
      assert RunValue(!v, |counts[1..]|) == RunValue(v, |counts|);
    }
  }

  /** Length of the leading run: the group `itertools.groupby` yields first. */
  function LeadRun(s: seq<bool>): (r: nat)
    requires |s| > 0
    ensures 1 <= r <= |s|
    ensures forall i :: 0 <= i < r ==> s[i] == s[0]
    ensures r < |s| ==> s[r] != s[0]
  {
    if |s| == 1 || s[1] != s[0] then 1 else 1 + LeadRun(s[1..])
  }

  /** The lengths of the maximal runs of `s`, in order. */
  function RunLengths(s: seq<bool>): (r: seq<nat>)
    ensures forall i :: 0 <= i < |r| ==> r[i] > 0
    ensures |s| == 0 <==> |r| == 0
    decreases |s|
  {
    if |s| == 0 then [] else [LeadRun(s)] + RunLengths(s[LeadRun(s)..])
  }

  /** A sequence is its leading run followed by the rest. */
  lemma {:induction false} LeadSplit(s: seq<bool>)
    requires |s| > 0
    ensures s == Repeat(s[0], LeadRun(s)) + s[LeadRun(s)..]
  {
    var n := LeadRun(s);
    var a := Repeat(s[0], n);
    var b := s[..n];
    assert |a| == |b|;
    forall i | 0 <= i < n
      ensures a[i] == b[i]
    {
    }
    assert a == b;
    assert s == b + s[n..];
  }

  /** Runs expand back to the sequence they were taken from. */
  lemma {:induction false} RunLengthsExpand(s: seq<bool>)
    requires |s| > 0
    ensures Expand(RunLengths(s), s[0]) == s
    decreases |s|
  {
    var n := LeadRun(s);
    var rest := s[n..];
    var c := RunLengths(s);
    assert c == [n] + RunLengths(rest);
    assert c[0] == n && c[1..] == RunLengths(rest);
    var tail := Expand(c[1..], !s[0]);
    assert Expand(c, s[0]) == Repeat(s[0], n) + tail;
    if |rest| == 0 {
      assert tail == [];
    } else {
      RunLengthsExpand(rest);
      assert rest[0] == !s[0];
      assert tail == rest;
    }
    LeadSplit(s);
  }

  /** `binary_mask.ravel(order='F')` for a `w` by `h` mask indexed
      `[x][y]`: the first index varies fastest, so position `k` holds the
      cell `[k % w][k / w]`. */
  function FortranOrder(m: seq<seq<bool>>, w: nat, h: nat): (r: seq<bool>)
    requires |m| == w && forall x :: 0 <= x < w ==> |m[x]| == h
    ensures |r| == w * h
  {
    seq(w * h, k requires 0 <= k < w * h => Cell(m, w, h, k))
  }

  /** The cell at column-major position `k`. */
  function Cell(m: seq<seq<bool>>, w: nat, h: nat, k: int): bool
    requires |m| == w && forall x :: 0 <= x < w ==> |m[x]| == h
    requires 0 <= k < w * h
  {
    PositionInRange(w, h, k);
    m[k % w][k / w]
  }

  lemma PositionInRange(w: nat, h: nat, k: int)
    requires 0 <= k < w * h
    ensures w > 0 && 0 <= k % w < w && 0 <= k / w < h
  {
    assert w > 0;
    var q := k / w;
    assert q * w <= k;
    if q >= h {
      MulLe(h, q, w);
    }
  }

  lemma MulLe(a: nat, b: nat, c: nat)
    requires a <= b
    ensures a * c <= b * c
  {
    var d := b - a;
    assert b * c == a * c + d * c;
  }

  /** Cell `[x][y]` sits at position `y * w + x` of the column-major order. */
  lemma FortranIndex(m: seq<seq<bool>>, w: nat, h: nat, x: int, y: int)
    requires |m| == w && forall x :: 0 <= x < w ==> |m[x]| == h
    requires 0 <= x < w && 0 <= y < h
    ensures y * w + x < w * h && FortranOrder(m, w, h)[y * w + x] == m[x][y]
  {
    var k := y * w + x;
    MulLe(y + 1, h, w);
    assert k < (y + 1) * w;
    DivMod(k, w, y, x);
  }

  lemma DivMod(k: int, w: int, q: int, r: int)
    requires 0 <= r < w && k == q * w + r
    ensures k / w == q && k % w == r
  {
    var q', r' := k / w, k % w;
    assert k == q' * w + r';
    assert (q - q') * w == r' - r;
    if q - q' >= 1 {
      MulLe(1, q - q', w);
    } else if q' - q >= 1 {
      MulLe(1, q' - q, w);
    }
  }

  /** The `counts` of `binary_mask_to_rle`: a leading 0 when the first cell
      is set, then the length of every group of equal cells. */
  function MaskCounts(flat: seq<bool>): (r: seq<nat>)
  {
    if |flat| == 0 then [] else (if flat[0] then [0] else []) + RunLengths(flat)
  }

  /** The object `binary_mask_to_rle` builds. */
  datatype CocoRle = CocoRle(counts: seq<nat>, size: (nat, nat))

  function BinaryMaskToRle(m: seq<seq<bool>>, w: nat, h: nat): (r: CocoRle)
    requires |m| == w && forall x :: 0 <= x < w ==> |m[x]| == h
    ensures r.size == (w, h)
    ensures |r.counts| == 0 || r.counts[0] > 0 || (|r.counts| >= 2 && r.counts[1] > 0)
    ensures forall i :: 1 <= i < |r.counts| ==> r.counts[i] > 0
  {
    CocoRle(MaskCounts(FortranOrder(m, w, h)), (w, h))
  }

  /** Decoding the counts with the COCO convention gives back the mask in
      column-major order: the encoding loses nothing. */
  lemma MaskCountsRoundTrip(flat: seq<bool>)
    ensures Decode(MaskCounts(flat)) == flat
  {
    if |flat| > 0 {
      var c := RunLengths(flat);
      RunLengthsExpand(flat);
      if flat[0] {
        assert ([0] + c)[1..] == c;
        assert Decode([0] + c) == Repeat(false, 0) + Expand(c, true);
      } else {
        assert MaskCounts(flat) == c;
      }
    }
  }

  /** The counts decode to the mask in column-major order; with
      `FortranIndex`, cell `[x][y]` comes back at position `y * w + x`. */
  lemma BinaryMaskToRleRoundTrip(m: seq<seq<bool>>, w: nat, h: nat)
    requires |m| == w && forall x :: 0 <= x < w ==> |m[x]| == h
    ensures Decode(BinaryMaskToRle(m, w, h).counts) == FortranOrder(m, w, h)
  {
    MaskCountsRoundTrip(FortranOrder(m, w, h));
  }

  /** `binary_rle(arr)` over a 0/1 array, as its loop runs: `last` is the
      value of the current run and `l` its length; a run of zeros at the
      end is followed by an empty run of ones. */
  method BinaryRle(arr: seq<bool>) returns (rle: seq<nat>)
    ensures |rle| % 2 == 0 && |rle| >= 2
    ensures Sum(rle) == |arr|
    ensures Decode(rle) == arr
    ensures forall i :: 0 < i < |rle| - 1 ==> rle[i] > 0
  {
    rle := [];
    var last := false;
    var l: nat := 0;
    for i := 0 to |arr|
      invariant last == RunValue(false, |rle|)
      invariant Decode(rle) + Repeat(last, l) == arr[..i]
      invariant forall k :: 0 < k < |rle| ==> rle[k] > 0
      invariant |rle| > 0 ==> l > 0
    {
      assert arr[..i + 1] == arr[..i] + [arr[i]];
      if arr[i] == last {
        ExtendRun(Decode(rle), last, l, arr[..i]);
        l := l + 1;
      } else {
        CloseRun(rle, l, arr[..i]);
        rle := rle + [l];
        last := arr[i];
        l := 1;
      }
    }
    assert arr[..|arr|] == arr;
    FinishRuns(rle, l, arr);
    rle := rle + [l];
    if !last {
      rle := rle + [0];
    }
  }

  /** Closing the last run, and adding an empty run of ones when the last
      run was of zeros, gives an even number of counts decoding to `arr`. */
  lemma FinishRuns(rle: seq<nat>, l: nat, arr: seq<bool>)
    requires Decode(rle) + Repeat(RunValue(false, |rle|), l) == arr
    requires forall k :: 0 < k < |rle| ==> rle[k] > 0
    requires |rle| > 0 ==> l > 0
    ensures var r := if RunValue(false, |rle|) then rle + [l] else rle + [l] + [0];
      |r| % 2 == 0 && |r| >= 2 && Sum(r) == |arr| && Decode(r) == arr
      && forall i :: 0 < i < |r| - 1 ==> r[i] > 0
  {
    ExpandAppend(rle, false, l);
    if !RunValue(false, |rle|) {
      ExpandAppend(rle + [l], false, 0);
      assert Repeat(RunValue(false, |rle| + 1), 0) == [];
    }
  }

  /** One more equal value lengthens the open run. */
  lemma ExtendRun(done: seq<bool>, v: bool, l: nat, prefix: seq<bool>)
    requires done + Repeat(v, l) == prefix
    ensures done + Repeat(v, l + 1) == prefix + [v]
  {
    assert Repeat(v, l + 1) == Repeat(v, l) + [v];
  }

  /** A differing value closes the open run and opens one of length 1. */
  lemma CloseRun(rle: seq<nat>, l: nat, prefix: seq<bool>)
    requires Decode(rle) + Repeat(RunValue(false, |rle|), l) == prefix
    ensures Decode(rle + [l]) + Repeat(!RunValue(false, |rle|), 1) == prefix + [!RunValue(false, |rle|)]
    ensures RunValue(false, |rle + [l]|) == !RunValue(false, |rle|)
  {
    ExpandAppend(rle, false, l);
    assert Repeat(!RunValue(false, |rle|), 1) == [!RunValue(false, |rle|)];
  }

  /** `binary_rle_decode` as written: `zeros` are the even entries and `ones`
      the odd ones; each pair extends the output with `zeros[i]` zeros and
      then `ones[i]` more zeros. An odd number of counts indexes past
      `ones`. */
  function BinaryRleDecodeAsWritten(counts: seq<nat>): (r: Option<seq<bool>>)
    ensures r.None? <==> |counts| % 2 == 1
    ensures r.Some? ==> |r.value| == Sum(counts) && forall i :: 0 <= i < |r.value| ==> !r.value[i]
    decreases |counts|
  {
    if |counts| % 2 == 1 then None
    else if |counts| == 0 then Some([])
    else
      var rest := BinaryRleDecodeAsWritten(counts[2..]);
      PairSum(counts);
      Some(Repeat(false, counts[0]) + Repeat(false, counts[1]) + rest.value)
  }

  lemma PairSum(counts: seq<nat>)
    requires |counts| >= 2
    ensures Sum(counts) == counts[0] + counts[1] + Sum(counts[2..])
  {
    SumFront(counts);
    SumFront(counts[1..]);
    assert counts[1..][1..] == counts[2..];
  }

  /** For every array, decoding what `binary_rle` produced gives as many
      zeros as the array has cells: it is the inverse only for arrays
      without a one. */
  lemma AsWrittenDecodeErasesOnes(arr: seq<bool>, rle: seq<nat>)
    requires |rle| % 2 == 0 && Decode(rle) == arr
    ensures BinaryRleDecodeAsWritten(rle) == Some(Repeat(false, |arr|))
    ensures BinaryRleDecodeAsWritten(rle) == Some(arr) <==> forall i :: 0 <= i < |arr| ==> !arr[i]
  {
    var d := BinaryRleDecodeAsWritten(rle).value;
    assert d == Repeat(false, |arr|);
    if forall i :: 0 <= i < |arr| ==> !arr[i] {
      assert Repeat(false, |arr|) == arr;
    }
  }

  /** The array `[1]` is encoded as `[0, 1]` and comes back as `[0]`. */
  lemma AsWrittenDecodeCounterexample()
    ensures Decode([0, 1]) == [true]
    ensures BinaryRleDecodeAsWritten([0, 1]) == Some([false])
  {
    assert Expand([1], true) == Repeat(true, 1) + Expand([], false);
    assert [0, 1][1..] == [1];
    assert Decode([0, 1]) == Repeat(false, 0) + Expand([1], true);
    assert [0, 1][2..] == [];
    assert BinaryRleDecodeAsWritten([]) == Some([]);
    assert BinaryRleDecodeAsWritten([0, 1]) == Some(Repeat(false, 0) + Repeat(false, 1) + []);
    assert Repeat(false, 0) + Repeat(false, 1) + [] == [false];
  }

  /** `binary_rle_decode` with the odd entries written as ones: the pairs
      expand to the runs they count. */
  function BinaryRleDecode(counts: seq<nat>): (r: Option<seq<bool>>)
    ensures r.None? <==> |counts| % 2 == 1
    ensures r.Some? ==> |r.value| == Sum(counts)
    decreases |counts|
  {
    if |counts| % 2 == 1 then None
    else if |counts| == 0 then Some([])
    else
      var rest := BinaryRleDecode(counts[2..]);
      PairSum(counts);
      Some(Repeat(false, counts[0]) + Repeat(true, counts[1]) + rest.value)
  }

  /** The first two runs of a COCO decoding. */
  lemma ExpandPair(counts: seq<nat>)
    requires |counts| >= 2
    ensures Decode(counts) == Repeat(false, counts[0]) + Repeat(true, counts[1]) + Decode(counts[2..])
  {
    assert counts[1..][1..] == counts[2..];
    var a, b, c := Repeat(false, counts[0]), Repeat(true, counts[1]), Expand(counts[2..], false);
    assert Expand(counts[1..], true) == b + c;
    assert Expand(counts, false) == a + (b + c);
    assert a + b + c == a + (b + c);
  }

  /** The corrected decoder agrees with the reference decoder. */
  lemma {:induction false} BinaryRleDecodeIsDecode(counts: seq<nat>)
    requires |counts| % 2 == 0
    ensures BinaryRleDecode(counts) == Some(Decode(counts))
    decreases |counts|
  {
    if |counts| > 0 {
      BinaryRleDecodeIsDecode(counts[2..]);
      ExpandPair(counts);
    }
  }

  /** Decoding what `binary_rle` produced with the corrected decoder gives
      the array back. */
  method BinaryRleRoundTrip(arr: seq<bool>) returns (rle: seq<nat>, back: Option<seq<bool>>)
    ensures back == Some(arr)
    ensures Sum(rle) == |arr|
  {
    rle := BinaryRle(arr);
    back := BinaryRleDecode(rle);
    BinaryRleDecodeIsDecode(rle);
  }
}
