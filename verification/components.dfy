/** Connected components of ink. The cv2 variants label the components of
    the whole image (and of the ink inside a box) with 8-connectivity; the
    older textutil.py grows one component by a breadth-first search over
    the four direct neighbours. Both are described by one least fixpoint. */
module Components {
  import opened Raster
  import opened Seqs

  datatype Connectivity = Four | Eight

  predicate Adjacent(conn: Connectivity, p: Pixel, q: Pixel)
  {
    var dx := p.0 - q.0;
    var dy := p.1 - q.1;
    match conn
    case Four => (dx == 0 && (dy == 1 || dy == -1)) || (dy == 0 && (dx == 1 || dx == -1))
    case Eight => -1 <= dx <= 1 && -1 <= dy <= 1 && (dx != 0 || dy != 0)
  }

  lemma {:induction false} SubsetNotLarger<T>(a: set<T>, b: set<T>)
    requires a <= b
    ensures |a| <= |b|
    decreases |a|
  {
    if a != {} {
      var x :| x in a;
      SubsetNotLarger(a - {x}, b - {x});
    }
  }

  lemma ProperSubsetSmaller<T>(a: set<T>, b: set<T>)
    requires a < b
    ensures |a| < |b|
  {
    var x :| x in b && x !in a;
    SubsetNotLarger(a, b - {x});
  }

  /** No pixel of `s` adjacent to a pixel of `x` is missing from `x`. */
  predicate Closed(conn: Connectivity, s: set<Pixel>, x: set<Pixel>)
  {
    forall p, q :: p in x && q in s && Adjacent(conn, q, p) ==> q in x
  }

  /** One growth step: add the pixels of `s` next to the current set. */
  function Grow(conn: Connectivity, s: set<Pixel>, c: set<Pixel>): set<Pixel>
  {
    c + set p | p in s && exists q :: q in c && Adjacent(conn, p, q)
  }

  /** Everything of `s` reachable from `c` through adjacent pixels of `s`. */
  function Closure(conn: Connectivity, s: set<Pixel>, c: set<Pixel>): (r: set<Pixel>)
    requires c <= s
    ensures c <= r <= s
    decreases |s - c|
  {
    var g := Grow(conn, s, c);
    if g == c then c
    else
      assert s - g < s - c;
      ProperSubsetSmaller(s - g, s - c);
      Closure(conn, s, g)
  }

  /** The closure is closed: no pixel of `s` next to it is left out. */
  lemma {:induction false} ClosureClosed(conn: Connectivity, s: set<Pixel>, c: set<Pixel>)
    requires c <= s
    ensures Closed(conn, s, Closure(conn, s, c))
    decreases |s - c|
  {
    var g := Grow(conn, s, c);
    if g == c {
      forall p, q | p in c && q in s && Adjacent(conn, q, p)
        ensures q in c
      {
        assert q in g;
      }
    } else {
      assert s - g < s - c;
      ProperSubsetSmaller(s - g, s - c);
      ClosureClosed(conn, s, g);
    }
  }

  /** The closure is the least closed set: nothing outside the reach of
      the seeds is labelled with them. */
  lemma {:induction false} ClosureLeast(conn: Connectivity, s: set<Pixel>, c: set<Pixel>, x: set<Pixel>)
    requires c <= s && c <= x && Closed(conn, s, x)
    ensures Closure(conn, s, c) <= x
    decreases |s - c|
  {
    var g := Grow(conn, s, c);
    if g != c {
      assert g <= x;
      assert s - g < s - c;
      ProperSubsetSmaller(s - g, s - c);
      ClosureLeast(conn, s, g, x);
    }
  }

  /** The component of `p` in `s`, as `next(c for c in labels if p in c)`. */
  function Component(conn: Connectivity, s: set<Pixel>, p: Pixel): (r: set<Pixel>)
    requires p in s
    ensures p in r && r <= s && Closed(conn, s, r)
  {
    ClosureClosed(conn, s, {p});
    Closure(conn, s, {p})
  }

  lemma AdjacentSymmetric(conn: Connectivity, p: Pixel, q: Pixel)
    ensures Adjacent(conn, p, q) <==> Adjacent(conn, q, p)
  {
  }

  /** Components partition the pixel set: a member's component is the
      component it belongs to, so the first label list holding a pixel is
      that pixel's own component. */
  lemma ComponentOfMember(conn: Connectivity, s: set<Pixel>, p: Pixel, q: Pixel)
    requires p in s && q in Component(conn, s, p)
    ensures Component(conn, s, q) == Component(conn, s, p)
  {
    var cp := Component(conn, s, p);
    var cq := Component(conn, s, q);
    ClosureLeast(conn, s, {q}, cp);
    if p !in cq {
      var z := cp - cq;
      forall r, t | r in z && t in s && Adjacent(conn, t, r)
        ensures t in z
      {
        AdjacentSymmetric(conn, t, r);
      }
      ClosureLeast(conn, s, {p}, z);
      assert false;
    }
    ClosureLeast(conn, s, {p}, cq);
  }

  /** A repetition-free list drawn from a set is no longer than the set. */
  lemma {:induction false} DistinctWithin(a: seq<Pixel>, s: set<Pixel>)
    requires Distinct(a) && forall p :: p in a ==> p in s
    ensures |a| <= |s|
    decreases |a|
  {
    if |a| > 0 {
      var last := a[|a| - 1];
      var init := a[..|a| - 1];
      assert forall p :: p in init ==> p in s - {last} by {
        forall p | p in init ensures p in s - {last} {
          var k :| 0 <= k < |init| && init[k] == p;
          assert a[k] == p;
        }
      }
      DistinctWithin(init, s - {last});
    }
  }

  lemma ReachStep(s: set<Pixel>, start: Pixel, p: Pixel, q: Pixel)
    requires start in s && p in Closure(Four, s, {start}) && q in s
    requires q in Neighbours(p)
    ensures q in Closure(Four, s, {start})
  {
    ClosureClosed(Four, s, {start});
    NeighboursAreAdjacent(p, q);
  }

  /** The four direct neighbours in the order the search visits them. */
  function Neighbours(p: Pixel): seq<Pixel>
  {
    [(p.0 + 1, p.1), (p.0, p.1 + 1), (p.0 - 1, p.1), (p.0, p.1 - 1)]
  }

  /** The search's neighbour list is exactly the 4-connected neighbourhood. */
  lemma NeighboursAreAdjacent(p: Pixel, q: Pixel)
    ensures Adjacent(Four, q, p) <==> q in Neighbours(p)
  {
  }

  /** The inner loop of the search: append each unvisited ink neighbour. */
  method VisitNeighbours(img: Image, start: Pixel, a: seq<Pixel>, p: Pixel) returns (b: seq<Pixel>)
    requires Valid(img) && start in a
    requires p in Closure(Four, img.ink + {start}, {start})
    requires Distinct(a) && forall x :: x in a ==> x in Closure(Four, img.ink + {start}, {start})
    ensures |a| <= |b| && b[..|a|] == a
    ensures Distinct(b) && forall x :: x in b ==> x in Closure(Four, img.ink + {start}, {start})
    ensures forall q :: q in Neighbours(p) && q in img.ink + {start} ==> q in b
  {
    var s := img.ink + {start};
    var toCheck := Neighbours(p);
    b := a;
    var t := 0;
    while t < 4
      invariant 0 <= t <= 4
      invariant |a| <= |b| && b[..|a|] == a
      invariant Distinct(b)
      invariant forall x :: x in b ==> x in Closure(Four, s, {start})
      invariant forall k :: 0 <= k < t && toCheck[k] in s ==> toCheck[k] in b
    {
      var q := toCheck[t];
      if 0 <= q.0 < img.w && 0 <= q.1 < img.h && q !in b && q in img.ink {
        ReachStep(s, start, p, q);
        b := b + [q];
      }
      t := t + 1;
    }
    assert start in b by {
      var k :| 0 <= k < |a| && a[k] == start;
      assert b[k] == start;
    }
  }

  /** A finished search holds exactly the component: it only ever added
      reachable pixels and it has looked at every neighbour of each. */
  lemma ClosedSearchIsComponent(img: Image, start: Pixel, a: seq<Pixel>)
    requires start in a
    requires forall p :: p in a ==> p in Closure(Four, img.ink + {start}, {start})
    requires forall k, q :: 0 <= k < |a| && q in Neighbours(a[k]) && q in img.ink + {start} ==> q in a
    ensures forall p :: p in a <==> p in Closure(Four, img.ink + {start}, {start})
  {
    var s := img.ink + {start};
    var found := set p | p in a;
    assert Closed(Four, s, found) by {
      forall p, q | p in found && q in s && Adjacent(Four, q, p)
        ensures q in found
      {
        var k :| 0 <= k < |a| && a[k] == p;
        NeighboursAreAdjacent(a[k], q);
      }
    }
    ClosureLeast(Four, s, {start}, found);
  }

  /** Appending to the list keeps every visited neighbourhood covered. */
  lemma ExtendKeepsVisited(before: seq<Pixel>, a: seq<Pixel>, idx: nat, s: set<Pixel>)
    requires idx < |before| <= |a| && a[..|before|] == before
    requires forall k, q :: 0 <= k < idx && q in Neighbours(before[k]) && q in s ==> q in before
    requires forall q :: q in Neighbours(before[idx]) && q in s ==> q in a
    ensures forall k, q :: 0 <= k < idx + 1 && q in Neighbours(a[k]) && q in s ==> q in a
    ensures a[0] == before[0]
  {
    forall k, q | 0 <= k < idx + 1 && q in Neighbours(a[k]) && q in s
      ensures q in a
    {
      assert a[k] == before[k];
      if k < idx {
        var m :| 0 <= m < |before| && before[m] == q;
        assert a[m] == q;
      }
    }
  }

  /** `get_connected_pixels(image, i, j)`: breadth-first search from the
      start pixel over the four direct neighbours, in the order right, down,
      left, up of the transposed image. */
  method ConnectedPixels(img: Image, start: Pixel) returns (a: seq<Pixel>)
    requires Valid(img)
    ensures |a| >= 1 && a[0] == start
    ensures Distinct(a)
    ensures forall p :: p in a <==> p in Closure(Four, img.ink + {start}, {start})
  {
    var s := img.ink + {start};
    a := [start];
    var idx := 0;
    while idx < |a|
      invariant 0 <= idx <= |a| && |a| >= 1 && a[0] == start
      invariant Distinct(a)
      invariant forall p :: p in a ==> p in Closure(Four, s, {start})
      invariant forall k, q :: 0 <= k < idx && q in Neighbours(a[k]) && q in s ==> q in a
      decreases |s| - |a|, |a| - idx
    {
      var before := a;
      a := VisitNeighbours(img, start, a, a[idx]);
      ExtendKeepsVisited(before, a, idx, s);
      DistinctWithin(a, s);
      idx := idx + 1;
    }
    ClosedSearchIsComponent(img, start, a);
  }
}
