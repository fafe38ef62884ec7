/**
 * Greedy spatial de-duplication of detections (`removeDuplicates`): one pass
 * over the points in order, keeping a point only when no point kept so far
 * lies within the merge radius.
 */
module Deduplication {
  import opened Geometry

  /** Some point of `kept` lies within the merge radius of `p`. */
  predicate NearAny(p: Point, kept: seq<Point>) {
    exists k :: 0 <= k < |kept| && Near(p, kept[k])
  }

  /**
   * The list the greedy pass has built after reading all of `s`: the list
   * built from all but the last point, extended by the last point unless
   * some kept point is near it.
   */
  function Dedup(s: seq<Point>): seq<Point>
    decreases |s|
  {
    if s == [] then []
    else
      var kept := Dedup(s[..|s| - 1]);
      if NearAny(s[|s| - 1], kept) then kept else kept + [s[|s| - 1]]
  }

  /** `a` is `b` with some of its elements left out, the rest in their order. */
  ghost predicate IsSubsequence(a: seq<Point>, b: seq<Point>)
    decreases |b|
  {
    if b == [] then a == []
    else
      IsSubsequence(a, b[..|b| - 1]) ||
      (a != [] && a[|a| - 1] == b[|b| - 1] && IsSubsequence(a[..|a| - 1], b[..|b| - 1]))
  }

  /** No two points of `s` lie within the merge radius of each other. */
  ghost predicate Separated(s: seq<Point>) {
    forall i, j :: 0 <= i < j < |s| ==> !Near(s[i], s[j])
  }

  /**
   * The imperative pass: for each point, scan the kept list until a near
   * point is found (`isInclude` and `break`), and append the point when none is.
   */
  method RemoveDuplicates(points: seq<Point>) returns (filtered: seq<Point>)
    ensures filtered == Dedup(points)
  {
    filtered := [];
    for i := 0 to |points|
      invariant filtered == Dedup(points[..i])
    {
      var point := points[i];
      var isInclude := false;
      var k := 0;
      while k < |filtered|
        invariant 0 <= k <= |filtered|
        invariant !isInclude
        invariant forall m :: 0 <= m < k ==> !Near(point, filtered[m])
      {
        if SqDistance(point, filtered[k]) <= RADIUS_SQ {
          isInclude := true;
          break;
        }
        k := k + 1;
      }
      assert isInclude <==> NearAny(point, filtered);
      assert points[..i + 1][..i] == points[..i];
      if !isInclude {
        filtered := filtered + [point];
      }
    }
    assert points[..|points|] == points;
  }

  lemma {:induction false} SubsequenceProperties(a: seq<Point>, b: seq<Point>)
    requires IsSubsequence(a, b)
    ensures |a| <= |b|
    ensures forall p :: p in a ==> p in b
    decreases |b|
  {
    if b == [] {
    } else if IsSubsequence(a, b[..|b| - 1]) {
      SubsequenceProperties(a, b[..|b| - 1]);
    } else {
      SubsequenceProperties(a[..|a| - 1], b[..|b| - 1]);
      assert a == a[..|a| - 1] + [a[|a| - 1]];
      assert b == b[..|b| - 1] + [b[|b| - 1]];
    }
  }

  /** The output keeps input points only, in their input order, and is no longer. */
  lemma {:induction false} DedupSubsequence(s: seq<Point>)
    ensures IsSubsequence(Dedup(s), s)
    ensures |Dedup(s)| <= |s|
    ensures forall p :: p in Dedup(s) ==> p in s
    decreases |s|
  {
    if s != [] {
      var kept := Dedup(s[..|s| - 1]);
      DedupSubsequence(s[..|s| - 1]);
      if !NearAny(s[|s| - 1], kept) {
        assert (kept + [s[|s| - 1]])[..|kept|] == kept;
      }
      SubsequenceProperties(Dedup(s), s);
    }
  }

  /** Empty input gives empty output; otherwise the first point is always kept first. */
  lemma {:induction false} DedupKeepsFirst(s: seq<Point>)
    ensures s == [] <==> Dedup(s) == []
    ensures s != [] ==> Dedup(s)[0] == s[0]
    decreases |s|
  {
    if |s| == 1 {
      assert Dedup(s[..0]) == [];
    } else if |s| > 1 {
      DedupKeepsFirst(s[..|s| - 1]);
    }
  }

  /** Any two kept points are strictly farther apart than the merge radius. */
  lemma {:induction false} DedupSeparated(s: seq<Point>)
    ensures Separated(Dedup(s))
    decreases |s|
  {
    if s != [] {
      var kept := Dedup(s[..|s| - 1]);
      var p := s[|s| - 1];
      DedupSeparated(s[..|s| - 1]);
      if !NearAny(p, kept) {
        var r := kept + [p];
        forall i, j | 0 <= i < j < |r| ensures !Near(r[i], r[j]) {
          if j == |kept| {
            NearSymmetric(r[i], p);
          }
        }
      }
    }
  }

  /** The list built from a prefix of the input is a prefix of the final list. */
  lemma {:induction false} DedupPrefix(s: seq<Point>, n: nat)
    requires n <= |s|
    ensures Dedup(s[..n]) <= Dedup(s)
    decreases |s| - n
  {
    if n < |s| {
      var init := s[..|s| - 1];
      assert init[..n] == s[..n];
      DedupPrefix(init, n);
    } else {
      assert s[..n] == s;
    }
  }

  lemma NearAnyPrefix(p: Point, a: seq<Point>, b: seq<Point>)
    requires a <= b && NearAny(p, a)
    ensures NearAny(p, b)
  {
  }

  /**
   * Every input point lies within the merge radius of some kept point: a
   * point is dropped only because a point already kept is near it.
   */
  lemma {:induction false} DedupCovers(s: seq<Point>)
    ensures forall i :: 0 <= i < |s| ==> NearAny(s[i], Dedup(s))
  {
    forall i | 0 <= i < |s| ensures NearAny(s[i], Dedup(s)) {
      var before := Dedup(s[..i]);
      var after := Dedup(s[..i + 1]);
      assert s[..i + 1][..i] == s[..i];
      DedupPrefix(s, i + 1);
      if NearAny(s[i], before) {
        assert after == before;
      } else {
        assert after == before + [s[i]];
        assert Near(s[i], after[|before|]);
      }
      NearAnyPrefix(s[i], after, Dedup(s));
    }
  }

  /** A list whose points are already separated passes through unchanged. */
  lemma {:induction false} SeparatedIsFixpoint(t: seq<Point>)
    requires Separated(t)
    ensures Dedup(t) == t
    decreases |t|
  {
    if t != [] {
      var init := t[..|t| - 1];
      var p := t[|t| - 1];
      assert Separated(init);
      SeparatedIsFixpoint(init);
      forall k | 0 <= k < |init| ensures !Near(p, init[k]) {
        assert !Near(t[k], t[|t| - 1]);
        NearSymmetric(p, init[k]);
      }
      assert init + [p] == t;
    }
  }

  /** Applying the pass to its own output changes nothing. */
  lemma {:induction false} DedupIdempotent(s: seq<Point>)
    ensures Dedup(Dedup(s)) == Dedup(s)
  {
    DedupSeparated(s);
    SeparatedIsFixpoint(Dedup(s));
  }

  /** The lists the pass leaves unchanged are exactly the separated ones. */
  lemma {:induction false} DedupFixpointIff(t: seq<Point>)
    ensures Dedup(t) == t <==> Separated(t)
  {
    DedupSeparated(t);
    if Separated(t) {
      SeparatedIsFixpoint(t);
    }
  }

  /**
   * The pass depends on input order and does not find a smallest cover:
   * three points 8 px apart on a line give two survivors in one order and
   * one survivor when the middle point comes first.
   */
  lemma DedupOrderSensitive()
    ensures Dedup([Point(0, 0), Point(8, 0), Point(16, 0)]) == [Point(0, 0), Point(16, 0)]
    ensures Dedup([Point(8, 0), Point(0, 0), Point(16, 0)]) == [Point(8, 0)]
  {
    var a, b, c := Point(0, 0), Point(8, 0), Point(16, 0);
    assert Near(b, a) && Near(a, b) && Near(c, b) && !Near(c, a);
    KeepThenDrop(a, b);
    KeepThenDrop(b, a);
    assert [a, b, c] == [a, b] + [c] && [b, a, c] == [b, a] + [c];
    assert ([a, b] + [c])[..2] == [a, b] && ([b, a] + [c])[..2] == [b, a];
    assert !NearAny(c, [a]);
    assert NearAny(c, [b]) by { assert Near(c, [b][0]); }
  }

  /** Of two near points, the second is dropped. */
  lemma KeepThenDrop(p: Point, q: Point)
    requires Near(q, p)
    ensures Dedup([p, q]) == [p]
  {
    assert [p][..0] == [];
    assert Dedup([p]) == [p];
    assert [p, q][..1] == [p];
    assert NearAny(q, [p]) by { assert Near(q, [p][0]); }
  }
}
