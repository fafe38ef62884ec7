/**
 * The counting pipeline of `runPlan1` in YourService.java: for every template, score 17 widths
 * times 9 angles against the target image, gather the detections of all
 * attempts in width-then-angle order, de-duplicate them once, store the
 * count per template, and pick the template with the most matches.
 *
 * Resizing, rotating and correlating a template (OpenCV) are not modelled:
 * the response surface of template `t` at width `w` and angle `a` is the
 * parameter `score(t, w, a)`; the target image is fixed for the whole pass
 * and is therefore folded into that parameter.
 */
module Sweep {
  import opened Geometry
  import opened Deduplication
  import opened Detection
  import opened Ranking

  const WIDTH_MIN: int := 20
  const WIDTH_MAX: int := 100
  const WIDTH_STEP: int := 5
  const ANGLE_MAX: int := 360
  const ANGLE_STEP: int := 45

  /** One scoring attempt: the template resized to `width` and rotated by `angle`. */
  datatype Attempt = Attempt(width: int, angle: int)

  /** The values a counted loop `for (v = lo; v <= hi; v += step)` takes, in order. */
  function Range(lo: int, hi: int, step: int): (r: seq<int>)
    requires step > 0
    ensures forall k :: 0 <= k < |r| ==> r[k] == lo + step * k
    ensures |r| == 0 <==> lo > hi
    ensures |r| > 0 ==> r[|r| - 1] <= hi < r[|r| - 1] + step
  {
    if lo > hi then []
    else
      var n := (hi - lo) / step;
      assert lo + step * n <= hi < lo + step * n + step;
      seq(n + 1, k => lo + step * k)
  }

  /** The widths of the outer loop, YourService.java line 126. */
  function Widths(): seq<int> {
    Range(WIDTH_MIN, WIDTH_MAX, WIDTH_STEP)
  }

  /** The angles of the inner loop, YourService.java line 127. */
  function Angles(): seq<int> {
    Range(0, ANGLE_MAX, ANGLE_STEP)
  }

  /** The attempts of one width: every angle of `angles`, in order. */
  function Row(width: int, angles: seq<int>): (r: seq<Attempt>)
    ensures |r| == |angles|
    ensures forall k :: 0 <= k < |r| ==> r[k] == Attempt(width, angles[k])
  {
    seq(|angles|, k requires 0 <= k < |angles| => Attempt(width, angles[k]))
  }

  /** The attempts of the nested loops: widths outside, angles inside. */
  function Grid(widths: seq<int>, angles: seq<int>): seq<Attempt>
    decreases |widths|
  {
    if widths == [] then []
    else Grid(widths[..|widths| - 1], angles) + Row(widths[|widths| - 1], angles)
  }

  /** Every attempt made for one template. */
  function Attempts(): seq<Attempt> {
    Grid(Widths(), Angles())
  }

  /** What each attempt of `template` appends to the detection list. */
  function Contribution<T>(score: (T, int, int) -> Surface, template: T): Attempt -> seq<Point> {
    (a: Attempt) => Collected(score(template, a.width, a.angle))
  }

  /** The detection list after the given attempts, each appending its contribution. */
  function Detections(contribution: Attempt -> seq<Point>, attempts: seq<Attempt>): seq<Point>
    decreases |attempts|
  {
    if attempts == [] then []
    else Detections(contribution, attempts[..|attempts| - 1]) + contribution(attempts[|attempts| - 1])
  }

  /** The raw detection list of one template after its whole sweep. */
  function TemplateDetections<T>(score: (T, int, int) -> Surface, template: T): seq<Point> {
    Detections(Contribution(score, template), Attempts())
  }

  /** The count stored for one template: the size of its de-duplicated detections. */
  function MatchCount<T>(score: (T, int, int) -> Surface, template: T): nat {
    |Dedup(TemplateDetections(score, template))|
  }

  /** Some score of the surface is strictly above the threshold. */
  ghost predicate AnyAbove(s: Surface) {
    exists y, x :: 0 <= y < s.rows && 0 <= x < s.cols && s.at[y][x] > THRESHOLD
  }

  /**
   * The loop bounds of YourService.java lines 121-127 give 17 widths (20 to 100 by 5) and 9
   * angles (0 to 360 by 45, both ends included).
   */
  lemma SweepBounds()
    ensures |Widths()| == 17 && |Angles()| == 9
    ensures forall k :: 0 <= k < 17 ==> Widths()[k] == 20 + 5 * k
    ensures forall k :: 0 <= k < 9 ==> Angles()[k] == 45 * k
    ensures Angles()[0] == 0 && Angles()[8] == 360
  {
  }

  lemma {:induction false} GridLength(widths: seq<int>, angles: seq<int>)
    ensures |Grid(widths, angles)| == |widths| * |angles|
    decreases |widths|
  {
    if widths != [] {
      GridLength(widths[..|widths| - 1], angles);
      assert (|widths| - 1) * |angles| + |angles| == |widths| * |angles|;
    }
  }

  /** Attempt number `wi * |angles| + ai` is width `wi` paired with angle `ai`. */
  lemma {:induction false} GridAt(widths: seq<int>, angles: seq<int>, wi: nat, ai: nat)
    requires wi < |widths| && ai < |angles|
    ensures wi * |angles| + ai < |Grid(widths, angles)|
    ensures Grid(widths, angles)[wi * |angles| + ai] == Attempt(widths[wi], angles[ai])
    decreases |widths|
  {
    var init := widths[..|widths| - 1];
    var n := |angles|;
    GridLength(init, angles);
    GridLength(widths, angles);
    if wi == |widths| - 1 {
      assert wi * n + ai - |Grid(init, angles)| == ai;
    } else {
      GridAt(init, angles, wi, ai);
    }
  }

  /**
   * Each template gets 153 attempts; attempt `9 * wi + ai` uses width
   * `20 + 5 * wi` and angle `45 * ai`, so widths vary slowest.
   */
  lemma AttemptsShape(wi: nat, ai: nat)
    requires wi < 17 && ai < 9
    ensures |Attempts()| == 153
    ensures Attempts()[9 * wi + ai] == Attempt(20 + 5 * wi, 45 * ai)
  {
    SweepBounds();
    GridLength(Widths(), Angles());
    GridAt(Widths(), Angles(), wi, ai);
  }

  lemma DetectionsSnoc(contribution: Attempt -> seq<Point>, attempts: seq<Attempt>, a: Attempt)
    ensures Detections(contribution, attempts + [a]) == Detections(contribution, attempts) + contribution(a)
  {
  }

  /**
   * The detection list of a sequence of attempts is the concatenation of
   * the lists of its parts: nothing is reordered or merged before de-duplication.
   */
  lemma {:induction false} DetectionsAppend(contribution: Attempt -> seq<Point>, a: seq<Attempt>, b: seq<Attempt>)
    ensures Detections(contribution, a + b) == Detections(contribution, a) + Detections(contribution, b)
    decreases |b|
  {
    if b == [] {
      assert a + b == a;
    } else {
      var init, last := b[..|b| - 1], b[|b| - 1];
      calc {
        Detections(contribution, a + b);
        { assert a + b == (a + init) + [last];
          DetectionsSnoc(contribution, a + init, last); }
        Detections(contribution, a + init) + contribution(last);
        { DetectionsAppend(contribution, a, init); }
        Detections(contribution, a) + Detections(contribution, init) + contribution(last);
        Detections(contribution, a) + Detections(contribution, b);
      }
    }
  }

  /** A list is empty exactly when no attempt contributes anything. */
  lemma {:induction false} DetectionsEmptyIff(contribution: Attempt -> seq<Point>, attempts: seq<Attempt>)
    ensures Detections(contribution, attempts) == [] <==>
      forall k :: 0 <= k < |attempts| ==> contribution(attempts[k]) == []
    decreases |attempts|
  {
    if attempts != [] {
      var init := attempts[..|attempts| - 1];
      DetectionsEmptyIff(contribution, init);
      assert forall k :: 0 <= k < |init| ==> init[k] == attempts[k];
    }
  }

  /** A surface contributes detections exactly when one of its scores is above the threshold. */
  lemma CollectedNonEmptyIff(s: Surface)
    ensures Collected(s) != [] <==> AnyAbove(s)
  {
    GateOnlySavesWork(s);
    HitsExactly(s);
    if AnyAbove(s) {
      var y, x :| 0 <= y < s.rows && 0 <= x < s.cols && s.at[y][x] > THRESHOLD;
      assert Point(x, y) in Hits(s);
    }
  }

  /**
   * A template's count never exceeds the number of raw detections, and it is
   * positive exactly when some attempt has a score above the threshold.
   */
  lemma MatchCountBounds<T>(score: (T, int, int) -> Surface, template: T)
    ensures MatchCount(score, template) <= |TemplateDetections(score, template)|
    ensures MatchCount(score, template) > 0 <==>
      exists k :: 0 <= k < |Attempts()| &&
        AnyAbove(score(template, Attempts()[k].width, Attempts()[k].angle))
  {
    var atts := Attempts();
    var contribution := Contribution(score, template);
    var d := Detections(contribution, atts);
    DedupSubsequence(d);
    DedupKeepsFirst(d);
    DetectionsEmptyIff(contribution, atts);
    forall k | 0 <= k < |atts|
      ensures contribution(atts[k]) != [] <==> AnyAbove(score(template, atts[k].width, atts[k].angle))
    {
      CollectedNonEmptyIff(score(template, atts[k].width, atts[k].angle));
    }
  }

  lemma RowStep(contribution: Attempt -> seq<Point>, width: int, angles: seq<int>, ai: nat,
                matches: seq<Point>, before: seq<Point>, after: seq<Point>)
    requires ai < |angles|
    requires before == matches + Detections(contribution, Row(width, angles[..ai]))
    requires after == before + contribution(Attempt(width, angles[ai]))
    ensures after == matches + Detections(contribution, Row(width, angles[..ai + 1]))
  {
    var a := Attempt(width, angles[ai]);
    assert Row(width, angles[..ai + 1]) == Row(width, angles[..ai]) + [a];
    DetectionsSnoc(contribution, Row(width, angles[..ai]), a);
  }

  lemma GridStep(contribution: Attempt -> seq<Point>, widths: seq<int>, angles: seq<int>, wi: nat,
                 before: seq<Point>, after: seq<Point>)
    requires wi < |widths|
    requires before == Detections(contribution, Grid(widths[..wi], angles))
    requires after == before + Detections(contribution, Row(widths[wi], angles))
    ensures after == Detections(contribution, Grid(widths[..wi + 1], angles))
  {
    DetectionsAppend(contribution, Grid(widths[..wi], angles), Row(widths[wi], angles));
    assert widths[..wi + 1][..wi] == widths[..wi];
  }

  /**
   * YourService.java lines 127-151, for one width: every angle from 0 to 360 by 45 appends
   * what its response surface yields to `matches`.
   */
  method SweepAngles<T>(matches: seq<Point>, template: T, width: int, score: (T, int, int) -> Surface,
                        ghost angles: seq<int>)
    returns (out: seq<Point>)
    requires |angles| == 9 && forall k :: 0 <= k < 9 ==> angles[k] == 45 * k
    ensures out == matches + Detections(Contribution(score, template), Row(width, angles))
  {
    ghost var contribution := Contribution(score, template);
    out := matches;
    var j := 0;
    ghost var ai := 0;
    while j <= ANGLE_MAX
      invariant 0 <= ai <= 9 && j == ANGLE_STEP * ai
      invariant out == matches + Detections(contribution, Row(width, angles[..ai]))
    {
      ghost var before := out;
      out := CollectDetections(out, score(template, width, j));
      assert contribution(Attempt(width, angles[ai])) == Collected(score(template, width, j));
      RowStep(contribution, width, angles, ai, matches, before, out);
      j := j + ANGLE_STEP;
      ai := ai + 1;
    }
    assert angles[..ai] == angles;
  }

  /**
   * YourService.java lines 114-152, for one template: `matches` starts empty and every
   * attempt, widths outside and angles inside, appends what it collects.
   */
  method SweepTemplate<T>(template: T, score: (T, int, int) -> Surface) returns (matches: seq<Point>)
    ensures matches == TemplateDetections(score, template)
  {
    SweepBounds();
    ghost var widths, angles := Widths(), Angles();
    ghost var contribution := Contribution(score, template);
    matches := [];
    var i := WIDTH_MIN;
    ghost var wi := 0;
    while i <= WIDTH_MAX
      invariant 0 <= wi <= 17 && i == WIDTH_MIN + WIDTH_STEP * wi
      invariant matches == Detections(contribution, Grid(widths[..wi], angles))
    {
      ghost var before := matches;
      assert i == widths[wi];
      matches := SweepAngles(matches, template, i, score, angles);
      assert matches == before + Detections(contribution, Row(widths[wi], angles));
      GridStep(contribution, widths, angles, wi, before, matches);
      i := i + WIDTH_STEP;
      wi := wi + 1;
    }
    assert wi == |widths|;
    assert widths[..wi] == widths;
  }

  /**
   * YourService.java lines 107-161: one slot per template in `templateMatchCnt`, holding the
   * size of the de-duplicated detections of that template's sweep.
   */
  method CountMatches<T>(templates: seq<T>, score: (T, int, int) -> Surface) returns (counts: array<int>)
    ensures fresh(counts)
    ensures counts.Length == |templates|
    ensures forall t :: 0 <= t < |templates| ==> counts[t] == MatchCount(score, templates[t])
  {
    counts := new int[|templates|];
    for tempNum := 0 to |templates|
      invariant forall t :: 0 <= t < tempNum ==> counts[t] == MatchCount(score, templates[t])
    {
      var matchCnt := 0;
      var matches := SweepTemplate(templates[tempNum], score);
      var filteredMatches := RemoveDuplicates(matches);
      matchCnt := matchCnt + |filteredMatches|;
      assert matchCnt == MatchCount(score, templates[tempNum]);
      counts[tempNum] := matchCnt;
    }
  }

  /**
   * YourService.java lines 107-165 without the reporting call: count every template, then
   * pick with `getMaxIndex`. Counts are never negative, so the pick is the
   * first template with the largest count (template 0 when all counts are 0).
   */
  method Recognise<T>(templates: seq<T>, score: (T, int, int) -> Surface) returns (winner: nat, count: int)
    requires |templates| > 0
    ensures winner < |templates| && count == MatchCount(score, templates[winner])
    ensures forall t :: 0 <= t < |templates| ==> MatchCount(score, templates[t]) <= count
    ensures forall t :: 0 <= t < winner ==> MatchCount(score, templates[t]) < count
  {
    var counts := CountMatches(templates, score);
    winner := GetMaxIndex(counts);
    if exists k :: 0 <= k < counts.Length && counts[k] > 0 {
      assert IsFirstMax(counts[..], winner);
      assert forall k :: 0 <= k < counts.Length ==> counts[..][k] == counts[k];
    } else {
      assert winner == 0;
    }
    count := counts[winner];
  }
}
