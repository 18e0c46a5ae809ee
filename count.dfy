/** count.py: the flat lattice. Every emitter starts active (status 1);
    a quencher within the effective distance but outside the emitter's
    radius switches it off for good (status 0). */
module Count {
  import opened Geometry
  import opened Sweep

  const RADIUS: real := 1.0
  const EFFECT_D: real := 10.0
  const X_STEP: real := 6.1

  datatype Point = Point(x: real, y: real)

  function SquaredDistance(a: Point, b: Point): (d2: real)
    ensures d2 >= 0.0
  {
    (a.x - b.x) * (a.x - b.x) + (a.y - b.y) * (a.y - b.y)
  }

  /** The quencher at `q` is within EFFECT_D of `pos`. */
  predicate InRange(pos: Point, q: Point)
  {
    !Exceeds(SquaredDistance(pos, q), EFFECT_D)
  }

  /** The quencher at `q` lies inside the body of the emitter at `pos`. */
  predicate Inside(pos: Point, q: Point)
  {
    !Exceeds(SquaredDistance(pos, q), RADIUS)
  }

  /** Status of an emitter at `pos` after `react` with a quencher at `q`. */
  function NewStatus(status: int, pos: Point, q: Point): int
  {
    if InRange(pos, q) && !Inside(pos, q) then 0 else status
  }

  /** Value `react` returns. */
  function ReactValue(status: int, pos: Point, q: Point): int
  {
    if InRange(pos, q) && Inside(pos, q) then -1 else NewStatus(status, pos, q)
  }

  class Emitter {
    const x: real
    const y: real
    var status: int

    constructor (x: real, y: real)
      ensures this.x == x && this.y == y && status == 1
    {
      this.x, this.y := x, y;
      status := 1;
    }

    function Position(): Point
    {
      Point(x, y)
    }

    /** `getDistance`, squared: `react` compares its square root, and
        DistanceTests shows the comparisons agree. */
    function SquaredDistanceTo(x: real, y: real): real
    {
      SquaredDistance(Position(), Point(x, y))
    }

    method React(x: real, y: real) returns (r: int)
      modifies this
      ensures status == NewStatus(old(status), Position(), Point(x, y))
      ensures r == ReactValue(old(status), Position(), Point(x, y))
    {
      var d2 := SquaredDistanceTo(x, y);
      if Exceeds(d2, EFFECT_D) {
      } else if !Exceeds(d2, RADIUS) {
        return -1;
      } else {
        status := 0;
      }
      r := status;
    }
  }

  /** The two comparisons `react` makes on the distance `d`, the square
      root of the squared distance, are the range and radius tests. */
  lemma DistanceTests(d: real, pos: Point, q: Point)
    requires 0.0 <= d && d * d == SquaredDistance(pos, q)
    ensures d > EFFECT_D <==> !InRange(pos, q)
    ensures d <= RADIUS <==> Inside(pos, q)
  {
    ExceedsMatchesDistance(d, SquaredDistance(pos, q), EFFECT_D);
    ExceedsMatchesDistance(d, SquaredDistance(pos, q), RADIUS);
  }

  predicate Distinct(es: seq<Emitter>)
  {
    forall i, j :: 0 <= i < j < |es| ==> es[i] != es[j]
  }

  function Positions(es: seq<Emitter>): (ps: seq<Point>)
    ensures |ps| == |es| && forall j :: 0 <= j < |es| ==> ps[j] == es[j].Position()
  {
    seq(|es|, j requires 0 <= j < |es| => es[j].Position())
  }

  function Statuses(es: seq<Emitter>): (ss: seq<int>)
    reads es
    ensures |ss| == |es| && forall j :: 0 <= j < |es| ==> ss[j] == es[j].status
  {
    seq(|es|, j requires 0 <= j < |es| reads es => es[j].status)
  }

  /** Position of the site at column `col` of row `row`, rows `yStep` apart. */
  function SiteOf(row: int, col: int, yStep: real): Point
  {
    Point(ColumnX(col, row, X_STEP), row as real * yStep)
  }

  /** Position of lattice site `i` of a lattice `width` sites wide. */
  function SitePoint(i: int, width: int, yStep: real): Point
    requires width > 0
  {
    SiteOf(Row(i, width), Col(i, width), yStep)
  }

  /** The emitters of `points` stand at the first lattice sites, in list
      order, each still active: stated one emitter at a time from the end,
      with LaidSite reading it for any one index. */
  ghost predicate Laid(points: seq<Emitter>, width: int, yStep: real)
    reads points
    decreases |points|
  {
    points == [] ||
    (width > 0 && Laid(points[..|points| - 1], width, yStep) &&
     points[|points| - 1].Position() == SitePoint(|points| - 1, width, yStep) &&
     points[|points| - 1].status == 1)
  }

  /** Every emitter of a laid-out list stands at the site of its index and
      is active. */
  lemma {:induction false} LaidSite(points: seq<Emitter>, width: int, yStep: real, i: int)
    requires Laid(points, width, yStep) && 0 <= i < |points|
    ensures width > 0 && points[i].Position() == SitePoint(i, width, yStep) && points[i].status == 1
    decreases |points|
  {
    if i < |points| - 1 {
      var init := points[..|points| - 1];
      LaidSite(init, width, yStep, i);
      assert init[i] == points[i];
    }
  }

  lemma LaidExtend(points: seq<Emitter>, e: Emitter, width: int, yStep: real)
    requires Laid(points, width, yStep) && width > 0
    requires e.Position() == SitePoint(|points|, width, yStep) && e.status == 1
    ensures Laid(points + [e], width, yStep)
  {
    assert (points + [e])[..|points|] == points;
  }

  /** One `points.append(Emitter(...))` of `makeEmitterGrid`: the emitter of
      column `x` of row `y`, shifted by half a step on odd rows. */
  method AppendSite(points: seq<Emitter>, y: int, x: int, width: int, yStep: real)
    returns (extended: seq<Emitter>)
    requires 0 <= y < width && 0 <= x < width
    requires |points| == Index(0, y, x, width)
    requires Laid(points, width, yStep) && Distinct(points)
    ensures |extended| == |points| + 1 && points <= extended
    ensures fresh(extended[|points|])
    ensures Distinct(extended) && Laid(extended, width, yStep)
  {
    ghost var site := SiteOf(y, x, yStep);
    assert SitePoint(|points|, width, yStep) == site by {
      SiteAtIndex(y, x, width, yStep);
    }
    var e;
    if y % 2 == 1 {
      e := new Emitter((x as real * X_STEP) + (X_STEP / 2.0), y as real * yStep);
    } else {
      e := new Emitter(x as real * X_STEP, y as real * yStep);
    }
    assert e.Position() == site;
    LaidExtend(points, e, width, yStep);
    extended := points + [e];
  }

  /** The inner loop of `makeEmitterGrid`: appends row `y`, column by column. */
  method AppendRow(points: seq<Emitter>, y: int, width: int, yStep: real)
    returns (extended: seq<Emitter>)
    requires 0 <= y < width
    requires |points| == Index(0, y, 0, width)
    requires Laid(points, width, yStep) && Distinct(points)
    ensures |extended| == Index(0, y + 1, 0, width) && points <= extended
    ensures forall i :: |points| <= i < |extended| ==> fresh(extended[i])
    ensures Distinct(extended) && Laid(extended, width, yStep)
  {
    IndexNextRow(0, y, width);
    extended := points;
    for x := 0 to width
      invariant |extended| == Index(0, y, x, width) && points <= extended
      invariant forall i :: |points| <= i < |extended| ==> fresh(extended[i])
      invariant Distinct(extended) && Laid(extended, width, yStep)
    {
      extended := AppendSite(extended, y, x, width, yStep);
    }
  }

  /** The emitter list of `makeEmitterGrid`; `yStep` is the row height
      `Y_STEP = sqrt(0.75) * X_STEP`. */
  method MakeEmitterGrid(width: int, yStep: real) returns (points: seq<Emitter>)
    ensures |points| == SiteCount(width, 1)
    ensures Distinct(points)
    ensures forall i :: 0 <= i < |points| ==> fresh(points[i])
    ensures Laid(points, width, yStep)
  {
    points := [];
    if width <= 0 {
      return;
    }
    IndexNextLayer(0, width);
    for y := 0 to width
      invariant |points| == Index(0, y, 0, width)
      invariant Distinct(points) && forall i :: 0 <= i < |points| ==> fresh(points[i])
      invariant Laid(points, width, yStep)
    {
      points := AppendRow(points, y, width, yStep);
    }
  }

  /** What each emitter's `react` returns, reacting from statuses `ss`. */
  function Reactions(ps: seq<Point>, ss: seq<int>, q: Point): (vals: seq<int>)
    requires |ps| == |ss|
    ensures |vals| == |ss| && forall j :: 0 <= j < |ss| ==> vals[j] == ReactValue(ss[j], ps[j], q)
  {
    seq(|ss|, j requires 0 <= j < |ss| => ReactValue(ss[j], ps[j], q))
  }

  /** Each emitter's status after its own `react`. */
  function Reacted(ps: seq<Point>, ss: seq<int>, q: Point): (news: seq<int>)
    requires |ps| == |ss|
    ensures |news| == |ss| && forall j :: 0 <= j < |ss| ==> news[j] == NewStatus(ss[j], ps[j], q)
  {
    seq(|ss|, j requires 0 <= j < |ss| => NewStatus(ss[j], ps[j], q))
  }

  /** Statuses after `countActive`: every emitter up to and including the
      first whose reaction returned -1 has reacted, the later ones are
      untouched. */
  function After(ps: seq<Point>, ss: seq<int>, q: Point): seq<int>
    requires |ps| == |ss|
  {
    var k := FirstSentinel(Reactions(ps, ss, q));
    Splice(Reacted(ps, ss, q), ss, if k < |ss| then k + 1 else k)
  }

  /** Value `countActive` returns. */
  function Count(ps: seq<Point>, ss: seq<int>, q: Point): int
    requires |ps| == |ss|
  {
    Outcome(Reactions(ps, ss, q))
  }

  lemma SweepAborted(ps: seq<Point>, ss: seq<int>, q: Point, i: nat)
    requires |ps| == |ss| && i < |ss|
    requires forall j :: 0 <= j < i ==> Reactions(ps, ss, q)[j] != -1
    requires Reactions(ps, ss, q)[i] == -1
    ensures Count(ps, ss, q) == -1
    ensures After(ps, ss, q) == Splice(Reacted(ps, ss, q), ss, i + 1)
  {
    assert FirstSentinel(Reactions(ps, ss, q)) == i;
  }

  lemma SweepCompleted(ps: seq<Point>, ss: seq<int>, q: Point)
    requires |ps| == |ss|
    requires forall j :: 0 <= j < |ss| ==> Reactions(ps, ss, q)[j] != -1
    ensures Count(ps, ss, q) == Sum(Reactions(ps, ss, q))
    ensures After(ps, ss, q) == Splice(Reacted(ps, ss, q), ss, |ss|)
  {
  }

  lemma StatusesAre(es: seq<Emitter>, s: seq<int>)
    requires |s| == |es| && forall j :: 0 <= j < |es| ==> es[j].status == s[j]
    ensures Statuses(es) == s
  {
  }

  /** One turn of the loop of `countActive`: emitter `i` reacts and returns
      its entry of `vals`; the emitters before it already hold their reacted
      status and keep it, and it joins them, the ones after it are untouched. */
  method ReactNext(emitters: seq<Emitter>, i: nat, x: real, y: real,
                   ghost ps: seq<Point>, ghost s0: seq<int>, ghost news: seq<int>, ghost vals: seq<int>)
    returns (result: int)
    requires Distinct(emitters) && i < |emitters| && |s0| == |emitters|
    requires ps == Positions(emitters)
    requires news == Reacted(ps, s0, Point(x, y)) && vals == Reactions(ps, s0, Point(x, y))
    requires forall j :: 0 <= j < |emitters| ==> emitters[j].status == (if j < i then news[j] else s0[j])
    modifies emitters
    ensures result == vals[i]
    ensures forall j :: 0 <= j < |emitters| ==> emitters[j].status == (if j <= i then news[j] else s0[j])
  {
    result := emitters[i].React(x, y);
  }

  /** `countActive`: reacts every emitter in list order, aborting with -1 at
      the first reaction that returns -1 and leaving the emitters it already
      reacted as they are. */
  method CountActive(x: real, y: real, emitters: seq<Emitter>) returns (count: int)
    requires Distinct(emitters)
    modifies emitters
    ensures Statuses(emitters) == After(Positions(emitters), old(Statuses(emitters)), Point(x, y))
    ensures count == Count(Positions(emitters), old(Statuses(emitters)), Point(x, y))
  {
    ghost var q := Point(x, y);
    ghost var ps := Positions(emitters);
    ghost var s0 := Statuses(emitters);
    ghost var vals := Reactions(ps, s0, q);
    ghost var news := Reacted(ps, s0, q);
    count := 0;
    for i := 0 to |emitters|
      invariant forall j :: 0 <= j < i ==> vals[j] != -1
      invariant forall j :: 0 <= j < |emitters| ==> emitters[j].status == (if j < i then news[j] else s0[j])
      invariant count == Sum(vals[..i])
    {
      var result := ReactNext(emitters, i, x, y, ps, s0, news, vals);
      if result == -1 {
        SweepAborted(ps, s0, q, i);
        StatusesAre(emitters, Splice(news, s0, i + 1));
        return -1;
      }
      SumPrefixStep(vals, i);
      count := count + result;
    }
    assert vals[..|emitters|] == vals;
    SweepCompleted(ps, s0, q);
    StatusesAre(emitters, Splice(news, s0, |emitters|));
  }

  // ---------------------------------------------------------------------
  // The lattice

  /** The emitter at index `row * width + col` stands at column `col` of row
      `row`. */
  lemma SiteAtIndex(row: int, col: int, width: int, yStep: real)
    requires 0 <= row < width && 0 <= col < width
    ensures SitePoint(Index(0, row, col, width), width, yStep) ==
      Point(ColumnX(col, row, X_STEP), row as real * yStep)
  {
    IndexDecomposes(0, row, col, width);
  }

  /** Index `width - 1`, from which the driver takes `limit_x`, is the last
      site of the first row. */
  lemma FirstRowEnd(width: int, yStep: real)
    requires width > 0
    ensures SitePoint(width - 1, width, yStep) == Point((width - 1) as real * X_STEP, 0.0)
  {
    FirstRowEndDecomposes(width);
  }

  /** The last index, from which the driver takes `limit_y`, is the last site
      of the last row. */
  lemma LastSite(width: int, yStep: real)
    requires width > 0
    ensures SitePoint(SiteCount(width, 1) - 1, width, yStep) ==
      Point(ColumnX(width - 1, width - 1, X_STEP), (width - 1) as real * yStep)
  {
    LastSiteDecomposes(width, 1);
  }

  /** With a non-negative row height every site lies in the driver's sampling
      box: x up to that of the first row's end plus half a step, y up to that
      of the last site. */
  lemma SiteWithinBox(width: int, yStep: real, i: int)
    requires width > 0 && yStep >= 0.0 && 0 <= i < SiteCount(width, 1)
    ensures var p := SitePoint(i, width, yStep);
      0.0 <= p.x <= (width - 1) as real * X_STEP + X_STEP / 2.0 &&
      0.0 <= p.y <= (width - 1) as real * yStep
  {
    var r, c := Row(i, width), Col(i, width);
    assert 0 <= r < width && 0 <= c < width by {
      IndexRecomposes(i, width);
    }
    CoordinatesWithinBox(r, c, width, yStep);
  }

  lemma CoordinatesWithinBox(r: int, c: int, width: int, yStep: real)
    requires 0 <= r < width && 0 <= c < width && yStep >= 0.0
    ensures var p := SiteOf(r, c, yStep);
      0.0 <= p.x <= (width - 1) as real * X_STEP + X_STEP / 2.0 &&
      0.0 <= p.y <= (width - 1) as real * yStep
  {
    ColumnXBounds(c, r, width, X_STEP);
    ScaleMonotone(r, width - 1, yStep);
  }

  // ---------------------------------------------------------------------
  // One emitter

  /** Because RADIUS is below EFFECT_D, `react` returns -1 exactly when the
      quencher lies inside the emitter, and the status is then left as it
      was. */
  lemma ReactSentinelExactly(status: int, pos: Point, q: Point)
    requires status >= 0
    ensures ReactValue(status, pos, q) == -1 <==> Inside(pos, q)
    ensures Inside(pos, q) ==> InRange(pos, q) && NewStatus(status, pos, q) == status
  {
    WithinBothIsWithinMin(SquaredDistance(pos, q), EFFECT_D, RADIUS);
  }

  /** An emitter is on (1) or off (0); `react` keeps it so, switches it off
      exactly when the quencher is in range but outside it, and never switches
      it back on. Reacting twice with the same quencher is reacting once. */
  lemma ReactSwitchesOff(status: int, pos: Point, q: Point)
    requires status == 0 || status == 1
    ensures NewStatus(status, pos, q) == 0 || NewStatus(status, pos, q) == 1
    ensures NewStatus(status, pos, q) == 0 <==> status == 0 || (InRange(pos, q) && !Inside(pos, q))
    ensures NewStatus(NewStatus(status, pos, q), pos, q) == NewStatus(status, pos, q)
  {
  }

  // ---------------------------------------------------------------------
  // The sweep over the whole list

  /** From statuses that are not negative, no reaction of a sweep returns
      less than -1, one returns -1 exactly when the quencher lies inside its
      emitter, and that emitter's status is then unchanged. */
  lemma ReactionsSentinel(ps: seq<Point>, ss: seq<int>, q: Point)
    requires |ps| == |ss|
    requires forall j :: 0 <= j < |ss| ==> ss[j] >= 0
    ensures forall j :: 0 <= j < |ss| ==> (Reactions(ps, ss, q)[j] >= -1 &&
      (Reactions(ps, ss, q)[j] == -1 <==> Inside(ps[j], q)))
    ensures forall j :: 0 <= j < |ss| && Reactions(ps, ss, q)[j] == -1 ==> Reacted(ps, ss, q)[j] == ss[j]
  {
    forall j | 0 <= j < |ss|
      ensures Reactions(ps, ss, q)[j] >= -1
      ensures Reactions(ps, ss, q)[j] == -1 <==> Inside(ps[j], q)
      ensures Reactions(ps, ss, q)[j] == -1 ==> Reacted(ps, ss, q)[j] == ss[j]
    {
      ReactSentinelExactly(ss[j], ps[j], q);
    }
  }

  /** For statuses that are not negative, `countActive` returns -1 exactly
      when the quencher lies inside some emitter. */
  lemma CountSentinelExactly(ps: seq<Point>, ss: seq<int>, q: Point)
    requires |ps| == |ss|
    requires forall j :: 0 <= j < |ss| ==> ss[j] >= 0
    ensures Count(ps, ss, q) == -1 <==> exists j :: 0 <= j < |ps| && Inside(ps[j], q)
  {
    ReactionsSentinel(ps, ss, q);
    OutcomeSentinel(Reactions(ps, ss, q));
  }

  /** An aborted sweep stops at the first emitter the quencher lies inside:
      the emitters before it have reacted and are not switched back on, it
      and every later one keep their status. */
  lemma AbortedSweepKeepsPrefix(ps: seq<Point>, ss: seq<int>, q: Point)
    requires |ps| == |ss|
    requires forall j :: 0 <= j < |ss| ==> ss[j] >= 0
    requires Count(ps, ss, q) == -1
    ensures exists k :: (0 <= k < |ps| && Inside(ps[k], q) &&
      (forall j :: 0 <= j < k ==> !Inside(ps[j], q)) &&
      (forall j :: 0 <= j < k ==> After(ps, ss, q)[j] == NewStatus(ss[j], ps[j], q)) &&
      (forall j :: k <= j < |ss| ==> After(ps, ss, q)[j] == ss[j]))
  {
    var vals := Reactions(ps, ss, q);
    var k := FirstSentinel(vals);
    assert k < |ss| && Inside(ps[k], q) && Reacted(ps, ss, q)[k] == ss[k] by {
      ReactionsSentinel(ps, ss, q);
      OutcomeSentinel(vals);
    }
    assert forall j :: 0 <= j < k ==> !(Inside(ps[j], q)) by {
      ReactionsSentinel(ps, ss, q);
    }
    var after := After(ps, ss, q);
    assert after == Splice(Reacted(ps, ss, q), ss, k + 1);
    assert forall j :: k <= j < |ss| ==> after[j] == ss[j];
  }

  /** With every emitter on or off, a sweep leaves them on or off and
      switches none back on; one that does not abort returns the number of
      emitters it leaves on, which is at most the number on before it and at
      most the number of emitters. */
  lemma CompletedSweepCounts(ps: seq<Point>, ss: seq<int>, q: Point)
    requires |ps| == |ss|
    requires forall j :: 0 <= j < |ss| ==> ss[j] == 0 || ss[j] == 1
    ensures forall j :: 0 <= j < |ss| ==>
      (After(ps, ss, q)[j] == 0 || After(ps, ss, q)[j] == 1) && After(ps, ss, q)[j] <= ss[j]
    ensures Count(ps, ss, q) != -1 ==>
      Count(ps, ss, q) == multiset(After(ps, ss, q))[1] &&
      0 <= Count(ps, ss, q) <= Sum(ss) && Count(ps, ss, q) <= |ss|
  {
    var after := After(ps, ss, q);
    forall j | 0 <= j < |ss|
      ensures (after[j] == 0 || after[j] == 1) && after[j] <= ss[j]
    {
      ReactSwitchesOff(ss[j], ps[j], q);
    }
    if Count(ps, ss, q) != -1 {
      var vals := Reactions(ps, ss, q);
      assert FirstSentinel(vals) == |ss|;
      assert vals == after;
      SumOfBits(after);
      SumMonotone(after, ss);
    }
  }

  /** Sweeping again with the same quencher changes nothing more and
      returns the same value: the emitters it switched off stay off, and the
      emitter it stopped at, if any, stops it again. */
  lemma SweepIdempotent(ps: seq<Point>, ss: seq<int>, q: Point)
    requires |ps| == |ss|
    requires forall j :: 0 <= j < |ss| ==> ss[j] == 0 || ss[j] == 1
    ensures After(ps, After(ps, ss, q), q) == After(ps, ss, q)
    ensures Count(ps, After(ps, ss, q), q) == Count(ps, ss, q)
  {
    var after := After(ps, ss, q);
    var vals, vals2 := Reactions(ps, ss, q), Reactions(ps, after, q);
    var k := FirstSentinel(vals);
    forall j | 0 <= j < |ss|
      ensures (vals[j] == -1 <==> vals2[j] == -1)
      ensures NewStatus(after[j], ps[j], q) == NewStatus(ss[j], ps[j], q)
      ensures vals[j] != -1 ==> vals2[j] == vals[j]
    {
      ReactSwitchesOff(ss[j], ps[j], q);
      ReactSentinelExactly(ss[j], ps[j], q);
      ReactSwitchesOff(after[j], ps[j], q);
      ReactSentinelExactly(after[j], ps[j], q);
    }
    assert FirstSentinel(vals2) == k;
    if k == |ss| {
      assert vals2 == vals;
    }
  }

  /** The statuses after sweeping with each quencher of `qs` in turn, whether
      each sweep goes through or aborts. */
  function Sweeps(ps: seq<Point>, ss: seq<int>, qs: seq<Point>): (s: seq<int>)
    requires |ps| == |ss|
    ensures |s| == |ss|
    decreases |qs|
  {
    if qs == [] then ss else Sweeps(ps, After(ps, ss, qs[0]), qs[1..])
  }

  /** Whatever sweeps follow, aborted ones included, every emitter stays on
      or off and none is switched back on. */
  lemma {:induction false} SweepsNeverSwitchOn(ps: seq<Point>, ss: seq<int>, qs: seq<Point>)
    requires |ps| == |ss|
    requires forall j :: 0 <= j < |ss| ==> ss[j] == 0 || ss[j] == 1
    ensures forall j :: 0 <= j < |ss| ==>
      (Sweeps(ps, ss, qs)[j] == 0 || Sweeps(ps, ss, qs)[j] == 1) && Sweeps(ps, ss, qs)[j] <= ss[j]
    decreases |qs|
  {
    if qs != [] {
      CompletedSweepCounts(ps, ss, qs[0]);
      SweepsNeverSwitchOn(ps, After(ps, ss, qs[0]), qs[1..]);
    }
  }

  /** The counts the driver keeps never increase: after a sweep that goes
      through, any sweeps in between (the rejected ones that returned -1
      included), and a later sweep that goes through, the later count is at
      most the earlier one. */
  lemma SuccessiveCountsNonIncreasing(ps: seq<Point>, ss: seq<int>, q1: Point, between: seq<Point>, q2: Point)
    requires |ps| == |ss|
    requires forall j :: 0 <= j < |ss| ==> ss[j] == 0 || ss[j] == 1
    requires Count(ps, ss, q1) != -1
    requires Count(ps, Sweeps(ps, After(ps, ss, q1), between), q2) != -1
    ensures Count(ps, Sweeps(ps, After(ps, ss, q1), between), q2) <= Count(ps, ss, q1)
  {
    var a1 := After(ps, ss, q1);
    var mid := Sweeps(ps, a1, between);
    CompletedSweepCounts(ps, ss, q1);
    SweepsNeverSwitchOn(ps, a1, between);
    CompletedSweepCounts(ps, mid, q2);
    SumMonotone(mid, a1);
    assert Count(ps, ss, q1) == Sum(a1) by {
      SumOfBits(a1);
    }
  }

  /** On a fresh lattice every emitter is on, so the baseline `N0`, the
      length of the list, is the sum of the statuses, and a sweep that goes
      through leaves a count between 0 and `N0`. */
  lemma FreshLatticeBaseline(ps: seq<Point>, ss: seq<int>, q: Point)
    requires |ps| == |ss|
    requires forall j :: 0 <= j < |ss| ==> ss[j] == 1
    ensures Sum(ss) == |ss|
    ensures Count(ps, ss, q) != -1 ==> 0 <= Count(ps, ss, q) <= |ss|
  {
    SumOfOnes(ss);
    CompletedSweepCounts(ps, ss, q);
  }

  /** The lattice of width 2: its four sites, in list order, are (0, 0),
      (X_STEP, 0), (X_STEP / 2, yStep) and (3 X_STEP / 2, yStep). */
  lemma WidthTwoSites(yStep: real)
    ensures seq(4, i requires 0 <= i < 4 => SitePoint(i, 2, yStep)) ==
      [Point(0.0, 0.0), Point(6.1, 0.0), Point(3.05, yStep), Point(9.15, yStep)]
  {
    assert Row(0, 2) == 0 && Col(0, 2) == 0 && Row(1, 2) == 0 && Col(1, 2) == 1;
    assert Row(2, 2) == 1 && Col(2, 2) == 0 && Row(3, 2) == 1 && Col(3, 2) == 1;
    var ps := seq(4, i requires 0 <= i < 4 => SitePoint(i, 2, yStep));
    assert ps[0] == Point(0.0, 0.0) && ps[1] == Point(6.1, 0.0);
    assert ps[2] == Point(3.05, yStep) && ps[3] == Point(9.15, yStep);
  }

  /** On the lattice of width 2 with every emitter on, a quencher at (0, 0)
      lies inside the first emitter and the sweep returns -1, while one at
      (100, 100) is out of everyone's range and the sweep returns all four. */
  lemma WidthTwoCounts(yStep: real)
    ensures var ps := [Point(0.0, 0.0), Point(6.1, 0.0), Point(3.05, yStep), Point(9.15, yStep)];
      Count(ps, [1, 1, 1, 1], Point(0.0, 0.0)) == -1 &&
      Count(ps, [1, 1, 1, 1], Point(100.0, 100.0)) == 4
  {
    var ps := [Point(0.0, 0.0), Point(6.1, 0.0), Point(3.05, yStep), Point(9.15, yStep)];
    var far := Point(100.0, 100.0);
    forall j | 0 <= j < 4
      ensures !InRange(ps[j], far)
    {
      var dx := 100.0 - ps[j].x;
      assert dx >= 90.0;
      assert dx * dx >= 90.0 * 90.0 by {
        assert dx * dx >= 90.0 * dx;
      }
    }
    var vals := Reactions(ps, [1, 1, 1, 1], far);
    assert vals == [1, 1, 1, 1];
    SumOfOnes(vals);
    CountSentinelExactly(ps, [1, 1, 1, 1], Point(0.0, 0.0));
    assert Inside(ps[0], Point(0.0, 0.0));
  }
}
