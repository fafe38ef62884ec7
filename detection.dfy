/**
 * One scoring attempt's contribution to the detection list: the maximum of
 * the response surface gates the attempt, the surface is cut to zero at the
 * threshold, and the positions still above zero are appended in row-major order.
 */
module Detection {
  import opened Geometry

  /** The match confidence threshold. */
  const THRESHOLD: real := 0.8

  /** A response surface: `rows` rows of `cols` correlation scores each. */
  datatype Scores = Scores(rows: nat, cols: nat, at: seq<seq<real>>) {
    predicate WellFormed() {
      |at| == rows && forall y :: 0 <= y < rows ==> |at[y]| == cols
    }
  }

  /** A well-formed response surface; every surface the scorer produces is one. */
  type Surface = s: Scores | s.WellFormed() witness Scores(0, 0, [])

  /** The largest score in a non-empty row. */
  function RowMax(row: seq<real>): real
    requires row != []
    decreases |row|
  {
    if |row| == 1 then row[0]
    else
      var m0 := RowMax(row[..|row| - 1]);
      if row[|row| - 1] > m0 then row[|row| - 1] else m0
  }

  /** The largest score in the first `n` rows of a surface with at least one column. */
  function RowsMax(s: Surface, n: nat): real
    requires 0 < n <= s.rows && s.cols > 0
    decreases n
  {
    var last := RowMax(s.at[n - 1]);
    if n == 1 then last
    else
      var m0 := RowsMax(s, n - 1);
      if last > m0 then last else m0
  }

  lemma {:induction false} RowMaxIsMax(row: seq<real>)
    requires row != []
    ensures forall x :: 0 <= x < |row| ==> row[x] <= RowMax(row)
    ensures exists x :: 0 <= x < |row| && row[x] == RowMax(row)
    decreases |row|
  {
    if |row| == 1 {
      assert row[0] == RowMax(row);
    } else {
      var init := row[..|row| - 1];
      RowMaxIsMax(init);
      if row[|row| - 1] <= RowMax(init) {
        var x :| 0 <= x < |init| && init[x] == RowMax(init);
        assert row[x] == RowMax(row);
      }
    }
  }

  lemma {:induction false} RowsMaxIsMax(s: Surface, n: nat)
    requires 0 < n <= s.rows && s.cols > 0
    ensures forall y, x :: 0 <= y < n && 0 <= x < s.cols ==> s.at[y][x] <= RowsMax(s, n)
    ensures exists y, x :: 0 <= y < n && 0 <= x < s.cols && s.at[y][x] == RowsMax(s, n)
    decreases n
  {
    RowMaxIsMax(s.at[n - 1]);
    if n > 1 {
      RowsMaxIsMax(s, n - 1);
    }
  }

  /**
   * `MaxScore` is what `minMaxLoc` reports as the maximum: no score exceeds
   * it and some position holds it.
   */
  lemma MaxScoreIsMax(s: Surface)
    requires s.rows > 0 && s.cols > 0
    ensures forall y, x :: 0 <= y < s.rows && 0 <= x < s.cols ==> s.at[y][x] <= MaxScore(s)
    ensures exists y, x :: 0 <= y < s.rows && 0 <= x < s.cols && s.at[y][x] == MaxScore(s)
  {
    RowsMaxIsMax(s, s.rows);
  }

  /** The maximum value `minMaxLoc` reports for a non-empty surface. */
  function MaxScore(s: Surface): real
    requires s.rows > 0 && s.cols > 0
  {
    RowsMax(s, s.rows)
  }

  /** The gate: the attempt is looked at only when its maximum reaches the threshold. */
  predicate GatePasses(s: Surface) {
    s.rows > 0 && s.cols > 0 && MaxScore(s) >= THRESHOLD
  }

  /** One cell of the `THRESH_TOZERO` transform: values above the threshold kept, others 0. */
  function ToZero(v: real): (r: real)
    ensures r == v || r == 0.0
    ensures r > 0.0 <==> v > THRESHOLD
  {
    if v > THRESHOLD then v else 0.0
  }

  /** Positions (x, y) for x < n whose thresholded score in row `y` is above zero, by x. */
  function RowHits(row: seq<real>, y: nat, n: nat): seq<Point>
    requires n <= |row|
  {
    if n == 0 then []
    else RowHits(row, y, n - 1) + (if ToZero(row[n - 1]) > 0.0 then [Point(n - 1, y)] else [])
  }

  /** The hits of the first `m` rows, row after row. */
  function GridHits(s: Surface, m: nat): seq<Point>
    requires m <= s.rows
  {
    if m == 0 then []
    else GridHits(s, m - 1) + RowHits(s.at[m - 1], m - 1, s.cols)
  }

  /** All hits of a surface, in row-major order. */
  function Hits(s: Surface): seq<Point> {
    GridHits(s, s.rows)
  }

  /** What one attempt appends to the detection list. */
  function Collected(s: Surface): seq<Point> {
    if GatePasses(s) then Hits(s) else []
  }

  /** Row-major order: earlier row first, then smaller column. */
  predicate Before(p: Point, q: Point) {
    p.y < q.y || (p.y == q.y && p.x < q.x)
  }

  ghost predicate RowMajor(ps: seq<Point>) {
    forall i, j :: 0 <= i < j < |ps| ==> Before(ps[i], ps[j])
  }

  /**
   * YourService.java lines 135-150, for one response surface: read the maximum, and when it
   * reaches the threshold walk the thresholded surface row by row, appending
   * every position whose value is above zero to `matches`.
   */
  method CollectDetections(matches: seq<Point>, s: Surface) returns (out: seq<Point>)
    ensures out == matches + Collected(s)
  {
    out := matches;
    if s.rows > 0 && s.cols > 0 && MaxScore(s) >= THRESHOLD {
      for y := 0 to s.rows
        invariant out == matches + GridHits(s, y)
      {
        for x := 0 to s.cols
          invariant out == matches + GridHits(s, y) + RowHits(s.at[y], y, x)
        {
          if ToZero(s.at[y][x]) > 0.0 {
            out := out + [Point(x, y)];
          }
        }
      }
    }
  }

  lemma {:induction false} RowHitsExactly(row: seq<real>, y: nat, n: nat)
    requires n <= |row|
    ensures forall p :: p in RowHits(row, y, n) <==> p.y == y && 0 <= p.x < n && row[p.x] > THRESHOLD
    ensures RowMajor(RowHits(row, y, n))
    decreases n
  {
    if n > 0 {
      RowHitsExactly(row, y, n - 1);
    }
  }

  lemma {:induction false} GridHitsExactly(s: Surface, m: nat)
    requires m <= s.rows
    ensures forall p :: p in GridHits(s, m) <==>
      0 <= p.y < m && 0 <= p.x < s.cols && s.at[p.y][p.x] > THRESHOLD
    ensures RowMajor(GridHits(s, m))
    decreases m
  {
    if m > 0 {
      var a, b := GridHits(s, m - 1), RowHits(s.at[m - 1], m - 1, s.cols);
      GridHitsExactly(s, m - 1);
      RowHitsExactly(s.at[m - 1], m - 1, s.cols);
      forall i, j | 0 <= i < j < |a + b| ensures Before((a + b)[i], (a + b)[j]) {
        if j < |a| {
        } else if i >= |a| {
          assert (a + b)[i] == b[i - |a|] && (a + b)[j] == b[j - |a|];
        } else {
          assert (a + b)[i] in a && (a + b)[j] in b;
        }
      }
    }
  }

  lemma {:induction false} RowHitsNone(row: seq<real>, y: nat, n: nat)
    requires n <= |row|
    requires forall x :: 0 <= x < n ==> row[x] <= THRESHOLD
    ensures RowHits(row, y, n) == []
    decreases n
  {
    if n > 0 {
      RowHitsNone(row, y, n - 1);
    }
  }

  lemma {:induction false} GridHitsNone(s: Surface, m: nat)
    requires m <= s.rows
    requires forall y, x :: 0 <= y < m && 0 <= x < s.cols ==> s.at[y][x] <= THRESHOLD
    ensures GridHits(s, m) == []
    decreases m
  {
    if m > 0 {
      GridHitsNone(s, m - 1);
      RowHitsNone(s.at[m - 1], m - 1, s.cols);
    }
  }

  /**
   * The positions a surface yields are exactly the in-bounds positions whose
   * score is strictly above the threshold, each once, in row-major order.
   */
  lemma HitsExactly(s: Surface)
    ensures forall p :: p in Hits(s) <==>
      0 <= p.y < s.rows && 0 <= p.x < s.cols && s.at[p.y][p.x] > THRESHOLD
    ensures RowMajor(Hits(s))
    ensures (forall y, x :: 0 <= y < s.rows && 0 <= x < s.cols ==> s.at[y][x] <= THRESHOLD) ==>
      Hits(s) == []
  {
    GridHitsExactly(s, s.rows);
    if forall y, x :: 0 <= y < s.rows && 0 <= x < s.cols ==> s.at[y][x] <= THRESHOLD {
      GridHitsNone(s, s.rows);
    }
  }

  /**
   * The gate on the maximum only saves work: with or without it an attempt
   * contributes exactly its hits, since no score exceeds a maximum below
   * the threshold.
   */
  lemma GateOnlySavesWork(s: Surface)
    ensures Collected(s) == Hits(s)
  {
    if !GatePasses(s) {
      if s.rows > 0 && s.cols > 0 {
        MaxScoreIsMax(s);
      }
      HitsExactly(s);
    }
  }

  /** A maximum exactly at the threshold opens the gate, yet nothing is emitted. */
  lemma MaxAtThresholdEmitsNothing(s: Surface)
    requires s.rows > 0 && s.cols > 0 && MaxScore(s) == THRESHOLD
    ensures GatePasses(s)
    ensures Collected(s) == []
  {
    MaxScoreIsMax(s);
    HitsExactly(s);
  }
}
