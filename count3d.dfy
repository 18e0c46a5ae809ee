/** count3d.py: the layered lattice with chain-linked first-layer sites. A
    site of the first layer (z == 0) stands for CONNECTED stacked emitters
    and loses `strength` of them on its first reaction in range and outside
    its radius; every other reaction leaves a status alone. */
module Count3D {
  import opened Geometry
  import opened Sweep

  /** Number of connected emitters a first-layer site stands for. */
  const CONNECTED: int := 3

  datatype Point = Point(x: real, y: real, z: real)

  /** A quencher: where it lands, its effective distance, the radius of the
      emitters it may not land inside, and its strength. */
  datatype Quencher = Quencher(at: Point, effectD: real, radius: real, strength: int)

  function SquaredDistance(a: Point, b: Point): (d2: real)
    ensures d2 >= 0.0
  {
    (a.x - b.x) * (a.x - b.x) + (a.y - b.y) * (a.y - b.y) + (a.z - b.z) * (a.z - b.z)
  }

  /** The quencher is within its effective distance of `pos`. */
  predicate InRange(pos: Point, q: Quencher)
  {
    !Exceeds(SquaredDistance(pos, q.at), q.effectD)
  }

  /** The quencher lies inside the body of the emitter at `pos`. */
  predicate Inside(pos: Point, q: Quencher)
  {
    !Exceeds(SquaredDistance(pos, q.at), q.radius)
  }

  /** Status a fresh emitter at height `z` gets from the draw `draw`. */
  function InitialStatus(draw: real, actRate: real, z: real): int
  {
    if draw > actRate then 0
    else if z == 0.0 then CONNECTED
    else 1
  }

  /** Status of an emitter at `pos` after `react` with the quencher `q`. */
  function NewStatus(status: int, pos: Point, q: Quencher): int
  {
    if InRange(pos, q) && !Inside(pos, q) && status == CONNECTED then status - q.strength
    else status
  }

  /** Value `react` returns. */
  function ReactValue(status: int, pos: Point, q: Quencher): int
  {
    if InRange(pos, q) && Inside(pos, q) then -1 else NewStatus(status, pos, q)
  }

  /** The two comparisons `react` makes on the distance `d`, the square root
      of the squared distance, are the range and radius tests. */
  lemma DistanceTests(d: real, pos: Point, q: Quencher)
    requires 0.0 <= d && d * d == SquaredDistance(pos, q.at)
    ensures d > q.effectD <==> !InRange(pos, q)
    ensures d <= q.radius <==> Inside(pos, q)
  {
    ExceedsMatchesDistance(d, SquaredDistance(pos, q.at), q.effectD);
    ExceedsMatchesDistance(d, SquaredDistance(pos, q.at), q.radius);
  }

  class Emitter {
    const x: real
    const y: real
    const z: real
    var status: int

    /** `draw` is the value `random.random()` returns for this emitter. */
    constructor (x: real, y: real, z: real, actRate: real, draw: real)
      ensures this.x == x && this.y == y && this.z == z
      ensures status == InitialStatus(draw, actRate, z)
    {
      this.x, this.y, this.z := x, y, z;
      if draw > actRate {
        status := 0;
      } else if z == 0.0 {
        status := CONNECTED;
      } else {
        status := 1;
      }
    }

    function Position(): Point
    {
      Point(x, y, z)
    }

    method React(x: real, y: real, z: real, effectD: real, radius: real, strength: int) returns (r: int)
      modifies this
      ensures status == NewStatus(old(status), Position(), Quencher(Point(x, y, z), effectD, radius, strength))
      ensures r == ReactValue(old(status), Position(), Quencher(Point(x, y, z), effectD, radius, strength))
    {
      var d2 := SquaredDistance(Position(), Point(x, y, z));
      if Exceeds(d2, effectD) {
      } else if !Exceeds(d2, radius) {
        return -1;
      } else if status == CONNECTED {
        status := status - strength;
      }
      r := status;
    }
  }

  predicate Distinct(es: seq<Emitter>)
  {
    forall i, j :: 0 <= i < j < |es| ==> es[i] != es[j]
  }

  // Positions, Statuses, Reactions and Reacted read as in module Count: the
  // two scripts repeat the same code over their own emitters and points.

  function Positions(es: seq<Emitter>): (ps: seq<Point>)
    ensures |ps| == |es| && forall j :: 0 <= j < |es| ==> ps[j] == es[j].Position()
  {
    seq(|es|, j requires 0 <= j < |es| => es[j].Position())
  }

  function Statuses(es: seq<Emitter>): (ss: seq<int>)
    reads es
    ensures |ss| == |es| && forall j :: 0 <= j < |es| ==> ss[j] == es[j].status
  {
    seq(|es|, j requires 0 <= j < |es| reads es => es[j].status)
  }

  /** Position of the site at column `col` of row `row` of layer `layer`. */
  function SiteOf(layer: int, row: int, col: int, stepX: real, stepY: real, stepZ: real): Point
  {
    Point(ColumnX(col, row, stepX), row as real * stepY, layer as real * stepZ)
  }

  /** Position of lattice site `i` of a lattice `width` sites wide. */
  function SitePoint(i: int, width: int, stepX: real, stepY: real, stepZ: real): Point
    requires width > 0
  {
    SiteOf(Layer(i, width), Row(i, width), Col(i, width), stepX, stepY, stepZ)
  }

  /** The emitters of `points` stand at the first lattice sites, in list
      order, each with the status its own draw gave it: stated one emitter
      at a time from the end, with LaidSite reading it for any one index. */
  ghost predicate Laid(points: seq<Emitter>, width: int, stepX: real, stepY: real, stepZ: real,
                       actRate: real, draws: seq<real>)
    reads points
    decreases |points|
  {
    points == [] ||
    (width > 0 && |points| <= |draws| &&
     Laid(points[..|points| - 1], width, stepX, stepY, stepZ, actRate, draws) &&
     points[|points| - 1].Position() == SitePoint(|points| - 1, width, stepX, stepY, stepZ) &&
     points[|points| - 1].status == InitialStatus(draws[|points| - 1], actRate, points[|points| - 1].z))
  }

  /** Every emitter of a laid-out list stands at the site of its index, with
      the status its own draw gave it. */
  lemma {:induction false} LaidSite(points: seq<Emitter>, width: int, stepX: real, stepY: real, stepZ: real,
                                    actRate: real, draws: seq<real>, i: int)
    requires Laid(points, width, stepX, stepY, stepZ, actRate, draws) && 0 <= i < |points|
    ensures width > 0 && i < |draws|
    ensures points[i].Position() == SitePoint(i, width, stepX, stepY, stepZ)
    ensures points[i].status == InitialStatus(draws[i], actRate, points[i].z)
    decreases |points|
  {
    if i < |points| - 1 {
      var init := points[..|points| - 1];
      LaidSite(init, width, stepX, stepY, stepZ, actRate, draws, i);
      assert init[i] == points[i];
    }
  }

  /** Appending the emitter of the next site keeps the list laid out. */
  lemma LaidExtend(points: seq<Emitter>, e: Emitter, width: int, stepX: real, stepY: real, stepZ: real,
                   actRate: real, draws: seq<real>)
    requires Laid(points, width, stepX, stepY, stepZ, actRate, draws)
    requires |points| < |draws| && width > 0
    requires e.Position() == SitePoint(|points|, width, stepX, stepY, stepZ)
    requires e.status == InitialStatus(draws[|points|], actRate, e.z)
    ensures Laid(points + [e], width, stepX, stepY, stepZ, actRate, draws)
  {
    assert (points + [e])[..|points|] == points;
  }

  /** One `points.append(Emitter(...))` of `makeEmitterGrid`: the emitter
      of column `x`, row `y`, layer `z`, shifted by half a step on odd rows. */
  method AppendSite(points: seq<Emitter>, z: int, y: int, x: int, width: int, layers: int,
                    stepX: real, stepY: real, stepZ: real, actRate: real, draws: seq<real>)
    returns (extended: seq<Emitter>)
    requires 0 <= z < layers && 0 <= y < width && 0 <= x < width
    requires |points| == Index(z, y, x, width) && |draws| == SiteCount(width, layers)
    requires Laid(points, width, stepX, stepY, stepZ, actRate, draws)
    requires Distinct(points)
    ensures |extended| == |points| + 1 && points <= extended
    ensures fresh(extended[|points|])
    ensures Distinct(extended)
    ensures Laid(extended, width, stepX, stepY, stepZ, actRate, draws)
  {
    ghost var site := SiteOf(z, y, x, stepX, stepY, stepZ);
    assert SitePoint(|points|, width, stepX, stepY, stepZ) == site by {
      SiteAtIndex(z, y, x, width, stepX, stepY, stepZ);
    }
    assert |points| < |draws| by {
      IndexBelow(z, y, x, width, layers);
    }
    var e;
    if y % 2 == 1 {
      e := new Emitter((x as real * stepX) + (stepX / 2.0), y as real * stepY, z as real * stepZ,
                       actRate, draws[|points|]);
    } else {
      e := new Emitter(x as real * stepX, y as real * stepY, z as real * stepZ,
                       actRate, draws[|points|]);
    }
    assert e.Position() == site;
    LaidExtend(points, e, width, stepX, stepY, stepZ, actRate, draws);
    extended := points + [e];
  }

  /** The innermost loop of `makeEmitterGrid`: appends row `y` of layer `z`,
      column by column. */
  method AppendRow(points: seq<Emitter>, z: int, y: int, width: int, layers: int,
                   stepX: real, stepY: real, stepZ: real, actRate: real, draws: seq<real>)
    returns (extended: seq<Emitter>)
    requires 0 <= z < layers && 0 <= y < width
    requires |points| == Index(z, y, 0, width) && |draws| == SiteCount(width, layers)
    requires Laid(points, width, stepX, stepY, stepZ, actRate, draws)
    requires Distinct(points)
    ensures |extended| == Index(z, y + 1, 0, width) && points <= extended
    ensures forall i :: |points| <= i < |extended| ==> fresh(extended[i])
    ensures Distinct(extended)
    ensures Laid(extended, width, stepX, stepY, stepZ, actRate, draws)
  {
    extended := points;
    for x := 0 to width
      invariant |extended| == Index(z, y, x, width) && points <= extended
      invariant forall i :: |points| <= i < |extended| ==> fresh(extended[i])
      invariant Distinct(extended)
      invariant Laid(extended, width, stepX, stepY, stepZ, actRate, draws)
    {
      extended := AppendSite(extended, z, y, x, width, layers, stepX, stepY, stepZ, actRate, draws);
    }
    IndexNextRow(z, y, width);
  }

  /** The middle loop of `makeEmitterGrid`: appends layer `z`, row by row. */
  method AppendLayer(points: seq<Emitter>, z: int, width: int, layers: int,
                     stepX: real, stepY: real, stepZ: real, actRate: real, draws: seq<real>)
    returns (extended: seq<Emitter>)
    requires 0 <= z < layers && 0 < width
    requires |points| == Index(z, 0, 0, width) && |draws| == SiteCount(width, layers)
    requires Laid(points, width, stepX, stepY, stepZ, actRate, draws)
    requires Distinct(points)
    ensures |extended| == Index(z + 1, 0, 0, width) && points <= extended
    ensures forall i :: |points| <= i < |extended| ==> fresh(extended[i])
    ensures Distinct(extended)
    ensures Laid(extended, width, stepX, stepY, stepZ, actRate, draws)
  {
    IndexNextLayer(z, width);
    extended := points;
    for y := 0 to width
      invariant |extended| == Index(z, y, 0, width) && points <= extended
      invariant forall i :: |points| <= i < |extended| ==> fresh(extended[i])
      invariant Distinct(extended)
      invariant Laid(extended, width, stepX, stepY, stepZ, actRate, draws)
    {
      extended := AppendRow(extended, z, y, width, layers, stepX, stepY, stepZ, actRate, draws);
    }
  }

  /** The emitter list of `makeEmitterGrid`: `draws` are the values
      `random.random()` returns, one per emitter in creation order, and
      `stepY` is the row height `sqrt(0.75) * stepX`. */
  method MakeEmitterGrid(width: int, layer: int, stepX: real, stepZ: real, actRate: real,
                         stepY: real, draws: seq<real>)
    returns (points: seq<Emitter>)
    requires |draws| == SiteCount(width, layer)
    ensures |points| == SiteCount(width, layer)
    ensures Distinct(points)
    ensures forall i :: 0 <= i < |points| ==> fresh(points[i])
    ensures Laid(points, width, stepX, stepY, stepZ, actRate, draws)
  {
    points := [];
    if width <= 0 || layer <= 0 {
      return;
    }
    SiteCountIsIndex(width, layer);
    for z := 0 to layer
      invariant |points| == Index(z, 0, 0, width)
      invariant Distinct(points) && forall i :: 0 <= i < |points| ==> fresh(points[i])
      invariant Laid(points, width, stepX, stepY, stepZ, actRate, draws)
    {
      points := AppendLayer(points, z, width, layer, stepX, stepY, stepZ, actRate, draws);
    }
  }

  /** What each emitter's `react` returns, reacting from statuses `ss`. */
  function Reactions(ps: seq<Point>, ss: seq<int>, q: Quencher): (vals: seq<int>)
    requires |ps| == |ss|
    ensures |vals| == |ss| && forall j :: 0 <= j < |ss| ==> vals[j] == ReactValue(ss[j], ps[j], q)
  {
    seq(|ss|, j requires 0 <= j < |ss| => ReactValue(ss[j], ps[j], q))
  }

  /** Each emitter's status after its own `react`. */
  function Reacted(ps: seq<Point>, ss: seq<int>, q: Quencher): (news: seq<int>)
    requires |ps| == |ss|
    ensures |news| == |ss| && forall j :: 0 <= j < |ss| ==> news[j] == NewStatus(ss[j], ps[j], q)
  {
    seq(|ss|, j requires 0 <= j < |ss| => NewStatus(ss[j], ps[j], q))
  }

  /** Statuses after `countActive`: every emitter up to and including the
      first whose reaction returned -1 has reacted, the later ones are
      untouched. */
  function After(ps: seq<Point>, ss: seq<int>, q: Quencher): seq<int>
    requires |ps| == |ss|
  {
    var k := FirstSentinel(Reactions(ps, ss, q));
    Splice(Reacted(ps, ss, q), ss, if k < |ss| then k + 1 else k)
  }

  /** Value `countActive` returns. */
  function Count(ps: seq<Point>, ss: seq<int>, q: Quencher): int
    requires |ps| == |ss|
  {
    Outcome(Reactions(ps, ss, q))
  }

  /** A sweep that met its first -1 at index `i` returns -1, and every
      emitter up to and including `i` has reacted. */
  lemma SweepAborted(ps: seq<Point>, ss: seq<int>, q: Quencher, i: nat)
    requires |ps| == |ss| && i < |ss|
    requires forall j :: 0 <= j < i ==> Reactions(ps, ss, q)[j] != -1
    requires Reactions(ps, ss, q)[i] == -1
    ensures Count(ps, ss, q) == -1
    ensures After(ps, ss, q) == Splice(Reacted(ps, ss, q), ss, i + 1)
  {
    assert FirstSentinel(Reactions(ps, ss, q)) == i;
  }

  /** A sweep that met no -1 returns the sum of the reactions, and every
      emitter has reacted. */
  lemma SweepCompleted(ps: seq<Point>, ss: seq<int>, q: Quencher)
    requires |ps| == |ss|
    requires forall j :: 0 <= j < |ss| ==> Reactions(ps, ss, q)[j] != -1
    ensures Count(ps, ss, q) == Sum(Reactions(ps, ss, q))
    ensures After(ps, ss, q) == Splice(Reacted(ps, ss, q), ss, |ss|)
  {
  }

  lemma StatusesAre(es: seq<Emitter>, s: seq<int>)
    requires |s| == |es| && forall j :: 0 <= j < |es| ==> es[j].status == s[j]
    ensures Statuses(es) == s
  {
  }

  /** One turn of the loop of `countActive`: emitter `i` reacts and returns
      its entry of `vals`; the emitters before it already hold their reacted
      status and keep it, and it joins them, the ones after it are untouched. */
  method ReactNext(emitters: seq<Emitter>, i: nat, x: real, y: real, z: real, effectD: real, radius: real, strength: int,
                   ghost ps: seq<Point>, ghost s0: seq<int>, ghost news: seq<int>, ghost vals: seq<int>)
    returns (result: int)
    requires Distinct(emitters) && i < |emitters| && |s0| == |emitters|
    requires ps == Positions(emitters)
    requires news == Reacted(ps, s0, Quencher(Point(x, y, z), effectD, radius, strength)) && vals == Reactions(ps, s0, Quencher(Point(x, y, z), effectD, radius, strength))
    requires forall j :: 0 <= j < |emitters| ==> emitters[j].status == (if j < i then news[j] else s0[j])
    modifies emitters
    ensures result == vals[i]
    ensures forall j :: 0 <= j < |emitters| ==> emitters[j].status == (if j <= i then news[j] else s0[j])
  {
    result := emitters[i].React(x, y, z, effectD, radius, strength);
  }

  /** `countActive`: reacts every emitter in list order, aborting with -1
      at the first reaction that returns -1 and leaving the emitters it
      already reacted as they are. The defaults are those of the source. */
  method CountActive(x: real, y: real, z: real, emitters: seq<Emitter>,
                     effectD: real := 0.0, radius: real := 1.0, strength: int := 1)
    returns (count: int)
    requires Distinct(emitters)
    modifies emitters
    ensures Statuses(emitters) ==
      After(Positions(emitters), old(Statuses(emitters)), Quencher(Point(x, y, z), effectD, radius, strength))
    ensures count ==
      Count(Positions(emitters), old(Statuses(emitters)), Quencher(Point(x, y, z), effectD, radius, strength))
  {
    ghost var q := Quencher(Point(x, y, z), effectD, radius, strength);
    ghost var ps := Positions(emitters);
    ghost var s0 := Statuses(emitters);
    ghost var vals := Reactions(ps, s0, q);
    ghost var news := Reacted(ps, s0, q);
    count := 0;
    for i := 0 to |emitters|
      invariant forall j :: 0 <= j < i ==> vals[j] != -1
      invariant forall j :: 0 <= j < |emitters| ==> emitters[j].status == (if j < i then news[j] else s0[j])
      invariant count == Sum(vals[..i])
    {
      var result := ReactNext(emitters, i, x, y, z, effectD, radius, strength, ps, s0, news, vals);
      if result == -1 {
        SweepAborted(ps, s0, q, i);
        StatusesAre(emitters, Splice(news, s0, i + 1));
        return -1;
      }
      SumPrefixStep(vals, i);
      count := count + result;
    }
    assert vals[..|emitters|] == vals;
    SweepCompleted(ps, s0, q);
    StatusesAre(emitters, Splice(news, s0, |emitters|));
  }

  // ---------------------------------------------------------------------
  // The lattice

  /** The emitter at index `layer * width * width + row * width + col` stands
      at column `col` of row `row` of layer `layer`. */
  lemma SiteAtIndex(layer: int, row: int, col: int, width: int, stepX: real, stepY: real, stepZ: real)
    requires 0 <= row < width && 0 <= col < width
    ensures SitePoint(Index(layer, row, col, width), width, stepX, stepY, stepZ) ==
      Point(ColumnX(col, row, stepX), row as real * stepY, layer as real * stepZ)
  {
    IndexDecomposes(layer, row, col, width);
  }

  /** Index `width - 1`, from which the driver takes `limit_x`, is the last
      site of the first row. */
  lemma FirstRowEnd(width: int, stepX: real, stepY: real, stepZ: real)
    requires width > 0
    ensures SitePoint(width - 1, width, stepX, stepY, stepZ) == Point((width - 1) as real * stepX, 0.0, 0.0)
  {
    FirstRowEndDecomposes(width);
  }

  /** The last index, from which the driver takes `limit_y` and `limit_z`,
      is the last site of the last row of the last layer. */
  lemma LastSite(width: int, layers: int, stepX: real, stepY: real, stepZ: real)
    requires width > 0 && layers > 0
    ensures SitePoint(SiteCount(width, layers) - 1, width, stepX, stepY, stepZ) ==
      Point(ColumnX(width - 1, width - 1, stepX), (width - 1) as real * stepY, (layers - 1) as real * stepZ)
  {
    LastSiteDecomposes(width, layers);
  }

  /** With non-negative steps every site lies in the driver's sampling box:
      x up to that of the first row's end plus half a step, y and z up to
      those of the last site. */
  lemma SiteWithinBox(width: int, layers: int, stepX: real, stepY: real, stepZ: real, i: int)
    requires width > 0 && layers > 0 && stepX >= 0.0 && stepY >= 0.0 && stepZ >= 0.0
    requires 0 <= i < SiteCount(width, layers)
    ensures var p := SitePoint(i, width, stepX, stepY, stepZ);
      0.0 <= p.x <= (width - 1) as real * stepX + stepX / 2.0 &&
      0.0 <= p.y <= (width - 1) as real * stepY && 0.0 <= p.z <= (layers - 1) as real * stepZ
  {
    var l, r, c := Layer(i, width), Row(i, width), Col(i, width);
    assert 0 <= r < width && 0 <= c < width by {
      IndexRecomposes(i, width);
    }
    assert 0 <= l < layers by {
      LayerBelow(i, width, layers);
    }
    CoordinatesWithinBox(l, r, c, width, layers, stepX, stepY, stepZ);
  }

  lemma CoordinatesWithinBox(l: int, r: int, c: int, width: int, layers: int,
                             stepX: real, stepY: real, stepZ: real)
    requires 0 <= l < layers && 0 <= r < width && 0 <= c < width
    requires stepX >= 0.0 && stepY >= 0.0 && stepZ >= 0.0
    ensures var p := SiteOf(l, r, c, stepX, stepY, stepZ);
      0.0 <= p.x <= (width - 1) as real * stepX + stepX / 2.0 &&
      0.0 <= p.y <= (width - 1) as real * stepY && 0.0 <= p.z <= (layers - 1) as real * stepZ
  {
    ColumnXBounds(c, r, width, stepX);
    ScaleMonotone(r, width - 1, stepY);
    ScaleMonotone(l, layers - 1, stepZ);
  }

  /** A fresh emitter is off when its draw exceeds the activation rate, and
      otherwise chain-linked exactly on the first layer (for a non-zero layer
      spacing); so every fresh status is 0, 1 or CONNECTED. */
  lemma InitialStatusByLayer(i: int, width: int, stepX: real, stepY: real, stepZ: real,
                             draw: real, actRate: real)
    requires width > 0 && i >= 0 && stepZ != 0.0
    ensures var s := InitialStatus(draw, actRate, SitePoint(i, width, stepX, stepY, stepZ).z);
      s == (if draw > actRate then 0 else if Layer(i, width) == 0 then CONNECTED else 1) &&
      (s == 0 || s == 1 || s == CONNECTED)
  {
    var l := Layer(i, width);
    assert l >= 0;
    if l != 0 {
      assert l as real * stepZ != 0.0;
    }
  }

  // ---------------------------------------------------------------------
  // One emitter

  /** With a strength between 1 and CONNECTED and a status that is not
      negative, `react` returns -1 exactly when the quencher is within both
      the effective distance and the emitter radius, that is within the
      smaller of the two; the status is then left as it was. */
  lemma ReactSentinelExactly(status: int, pos: Point, q: Quencher)
    requires status >= 0 && 1 <= q.strength <= CONNECTED
    ensures ReactValue(status, pos, q) == -1 <==> InRange(pos, q) && Inside(pos, q)
    ensures ReactValue(status, pos, q) == -1 <==>
      !Exceeds(SquaredDistance(pos, q.at), Min(q.effectD, q.radius))
    ensures ReactValue(status, pos, q) == -1 ==> NewStatus(status, pos, q) == status
  {
    WithinBothIsWithinMin(SquaredDistance(pos, q.at), q.effectD, q.radius);
  }

  /** With a strength between 1 and CONNECTED a status never becomes
      negative and never increases, and only a CONNECTED status changes. */
  lemma ReactKeepsStatusInBounds(status: int, pos: Point, q: Quencher)
    requires status >= 0 && 1 <= q.strength <= CONNECTED
    ensures 0 <= NewStatus(status, pos, q) <= status
    ensures NewStatus(status, pos, q) != status ==> status == CONNECTED
  {
  }

  /** The status of an emitter at `pos` after reacting with each quencher of
      `qs` in turn. */
  function Exposed(status: int, pos: Point, qs: seq<Quencher>): int
    decreases |qs|
  {
    if qs == [] then status else Exposed(NewStatus(status, pos, qs[0]), pos, qs[1..])
  }

  /** A chain site is decremented at most once: whatever sequence of
      quenchers reaches it, a status other than CONNECTED never changes, and
      CONNECTED ends either untouched or reduced by the strength of a single
      one of them. */
  lemma {:induction false} ChainDepletedAtMostOnce(status: int, pos: Point, qs: seq<Quencher>)
    ensures status != CONNECTED ==> Exposed(status, pos, qs) == status
    ensures status == CONNECTED ==>
      Exposed(status, pos, qs) == CONNECTED ||
      exists j :: 0 <= j < |qs| && Exposed(status, pos, qs) == CONNECTED - qs[j].strength
    decreases |qs|
  {
    if qs != [] {
      var next := NewStatus(status, pos, qs[0]);
      ChainDepletedAtMostOnce(next, pos, qs[1..]);
      if status == CONNECTED && next == CONNECTED {
        var r := Exposed(next, pos, qs[1..]);
        if r != CONNECTED {
          var j :| 0 <= j < |qs[1..]| && r == CONNECTED - qs[1..][j].strength;
          assert r == CONNECTED - qs[j + 1].strength;
        }
      } else if status == CONNECTED {
        assert Exposed(status, pos, qs) == CONNECTED - qs[0].strength;
      }
    }
  }

  /** A first-layer site hit in range by a quencher of strength 2 and then
      by one of strength 1 keeps status 1: the second hit finds it no longer
      CONNECTED. */
  lemma ChainSiteTwoHits(pos: Point, first: Quencher, second: Quencher)
    requires first.strength == 2 && second.strength == 1
    requires InRange(pos, first) && !Inside(pos, first) && InRange(pos, second) && !Inside(pos, second)
    ensures Exposed(CONNECTED, pos, [first, second]) == 1
  {
    assert NewStatus(CONNECTED, pos, first) == 1;
    assert [first, second][1..] == [second];
    assert Exposed(CONNECTED, pos, [first, second]) == Exposed(1, pos, [second]);
    assert Exposed(1, pos, [second]) == Exposed(1, pos, []);
  }

  // ---------------------------------------------------------------------
  // The sweep over the whole list

  /** From statuses that are not negative and with a strength between 1 and
      CONNECTED, no reaction of a sweep returns less than -1, one returns -1
      exactly when the quencher is in range and inside its emitter, and that
      emitter's status is then unchanged. */
  lemma ReactionsSentinel(ps: seq<Point>, ss: seq<int>, q: Quencher)
    requires |ps| == |ss| && 1 <= q.strength <= CONNECTED
    requires forall j :: 0 <= j < |ss| ==> ss[j] >= 0
    ensures forall j :: 0 <= j < |ss| ==> (Reactions(ps, ss, q)[j] >= -1 &&
      (Reactions(ps, ss, q)[j] == -1 <==> InRange(ps[j], q) && Inside(ps[j], q)))
    ensures forall j :: 0 <= j < |ss| && Reactions(ps, ss, q)[j] == -1 ==> Reacted(ps, ss, q)[j] == ss[j]
  {
    forall j | 0 <= j < |ss|
      ensures Reactions(ps, ss, q)[j] >= -1
      ensures Reactions(ps, ss, q)[j] == -1 <==> InRange(ps[j], q) && Inside(ps[j], q)
      ensures Reactions(ps, ss, q)[j] == -1 ==> Reacted(ps, ss, q)[j] == ss[j]
    {
      ReactSentinelExactly(ss[j], ps[j], q);
      ReactKeepsStatusInBounds(ss[j], ps[j], q);
    }
  }

  /** For well-formed statuses and strengths, `countActive` returns -1
      exactly when the quencher lies inside some emitter within range. */
  lemma CountSentinelExactly(ps: seq<Point>, ss: seq<int>, q: Quencher)
    requires |ps| == |ss| && 1 <= q.strength <= CONNECTED
    requires forall j :: 0 <= j < |ss| ==> ss[j] >= 0
    ensures Count(ps, ss, q) == -1 <==> exists j :: 0 <= j < |ps| && InRange(ps[j], q) && Inside(ps[j], q)
  {
    ReactionsSentinel(ps, ss, q);
    OutcomeSentinel(Reactions(ps, ss, q));
  }

  /** An aborted sweep stops at the first emitter the quencher lies inside:
      the emitters before it have reacted and are not rolled back, it and
      every later one keep their status. */
  lemma AbortedSweepKeepsPrefix(ps: seq<Point>, ss: seq<int>, q: Quencher)
    requires |ps| == |ss| && 1 <= q.strength <= CONNECTED
    requires forall j :: 0 <= j < |ss| ==> ss[j] >= 0
    requires Count(ps, ss, q) == -1
    ensures exists k :: (0 <= k < |ps| && InRange(ps[k], q) && Inside(ps[k], q) &&
      (forall j :: 0 <= j < k ==> !(InRange(ps[j], q) && Inside(ps[j], q))) &&
      (forall j :: 0 <= j < k ==> After(ps, ss, q)[j] == NewStatus(ss[j], ps[j], q)) &&
      (forall j :: k <= j < |ss| ==> After(ps, ss, q)[j] == ss[j]))
  {
    var vals := Reactions(ps, ss, q);
    var k := FirstSentinel(vals);
    assert k < |ss| && InRange(ps[k], q) && Inside(ps[k], q) && Reacted(ps, ss, q)[k] == ss[k] by {
      ReactionsSentinel(ps, ss, q);
      OutcomeSentinel(vals);
    }
    assert forall j :: 0 <= j < k ==> !(InRange(ps[j], q) && Inside(ps[j], q)) by {
      ReactionsSentinel(ps, ss, q);
    }
    var after := After(ps, ss, q);
    assert after == Splice(Reacted(ps, ss, q), ss, k + 1);
    assert forall j :: k <= j < |ss| ==> after[j] == ss[j];
  }

  /** A sweep that does not abort returns the sum of the statuses it leaves,
      which is not negative and at most the sum before it; no status rises. */
  lemma CompletedSweepCounts(ps: seq<Point>, ss: seq<int>, q: Quencher)
    requires |ps| == |ss| && 1 <= q.strength <= CONNECTED
    requires forall j :: 0 <= j < |ss| ==> ss[j] >= 0
    ensures forall j :: 0 <= j < |ss| ==> 0 <= After(ps, ss, q)[j] <= ss[j]
    ensures Count(ps, ss, q) != -1 ==>
      Count(ps, ss, q) == Sum(After(ps, ss, q)) && 0 <= Count(ps, ss, q) <= Sum(ss)
  {
    var after := After(ps, ss, q);
    forall j | 0 <= j < |ss|
      ensures 0 <= after[j] <= ss[j]
    {
      ReactKeepsStatusInBounds(ss[j], ps[j], q);
    }
    if Count(ps, ss, q) != -1 {
      var vals := Reactions(ps, ss, q);
      assert FirstSentinel(vals) == |ss|;
      assert vals == after;
      SumNonNegative(after);
      SumMonotone(after, ss);
    }
  }

  /** The statuses after sweeping with each quencher of `qs` in turn, whether
      each sweep goes through or aborts. */
  function Sweeps(ps: seq<Point>, ss: seq<int>, qs: seq<Quencher>): (s: seq<int>)
    requires |ps| == |ss|
    ensures |s| == |ss|
    decreases |qs|
  {
    if qs == [] then ss else Sweeps(ps, After(ps, ss, qs[0]), qs[1..])
  }

  /** Whatever sweeps follow, aborted ones included, with strengths between
      1 and CONNECTED, no status goes negative and none rises. */
  lemma {:induction false} SweepsNeverRaise(ps: seq<Point>, ss: seq<int>, qs: seq<Quencher>)
    requires |ps| == |ss|
    requires forall j :: 0 <= j < |ss| ==> ss[j] >= 0
    requires forall i :: 0 <= i < |qs| ==> 1 <= qs[i].strength <= CONNECTED
    ensures forall j :: 0 <= j < |ss| ==> 0 <= Sweeps(ps, ss, qs)[j] <= ss[j]
    decreases |qs|
  {
    if qs != [] {
      CompletedSweepCounts(ps, ss, qs[0]);
      SweepsNeverRaise(ps, After(ps, ss, qs[0]), qs[1..]);
    }
  }

  /** The counts the driver keeps never increase: after a sweep that goes
      through, any sweeps in between (the rejected ones that returned -1
      included), and a later sweep that goes through, the later count is at
      most the earlier one. */
  lemma SuccessiveCountsNonIncreasing(ps: seq<Point>, ss: seq<int>, q1: Quencher, between: seq<Quencher>,
                                      q2: Quencher)
    requires |ps| == |ss| && 1 <= q1.strength <= CONNECTED && 1 <= q2.strength <= CONNECTED
    requires forall i :: 0 <= i < |between| ==> 1 <= between[i].strength <= CONNECTED
    requires forall j :: 0 <= j < |ss| ==> ss[j] >= 0
    requires Count(ps, ss, q1) != -1
    requires Count(ps, Sweeps(ps, After(ps, ss, q1), between), q2) != -1
    ensures Count(ps, Sweeps(ps, After(ps, ss, q1), between), q2) <= Count(ps, ss, q1)
  {
    var a1 := After(ps, ss, q1);
    var mid := Sweeps(ps, a1, between);
    assert Count(ps, ss, q1) == Sum(a1) && forall j :: 0 <= j < |ss| ==> a1[j] >= 0 by {
      CompletedSweepCounts(ps, ss, q1);
    }
    assert forall j :: 0 <= j < |ss| ==> 0 <= mid[j] <= a1[j] by {
      SweepsNeverRaise(ps, a1, between);
    }
    assert Count(ps, mid, q2) <= Sum(mid) by {
      CompletedSweepCounts(ps, mid, q2);
    }
    SumMonotone(mid, a1);
  }

  /** A strength above CONNECTED drives a chain-linked site to -1, which
      `countActive` takes for the sentinel: the sweep aborts although the
      quencher lies inside no emitter, and the site is left at -1. */
  lemma OverStrengthFakesSentinel(pos: Point, q: Quencher)
    requires InRange(pos, q) && !Inside(pos, q) && q.strength == CONNECTED + 1
    ensures Count([pos], [CONNECTED], q) == -1
    ensures After([pos], [CONNECTED], q) == [-1]
  {
    assert Reactions([pos], [CONNECTED], q) == [-1];
    assert Reacted([pos], [CONNECTED], q) == [-1];
  }

  /** An emitter left at -1 is never CONNECTED again, so its `react` returns
      -1 wherever the quencher lands: every later sweep aborts at the latest
      there. */
  lemma NegativeStatusAborts(ps: seq<Point>, ss: seq<int>, q: Quencher, k: int)
    requires |ps| == |ss| && 0 <= k < |ss| && ss[k] == -1
    ensures Count(ps, ss, q) == -1
    ensures FirstSentinel(Reactions(ps, ss, q)) <= k
  {
    var vals := Reactions(ps, ss, q);
    assert vals[k] == -1;
    OutcomeSentinelAt(vals, k);
  }

  /** The baseline probe of the driver, at (0, 0, -100) with the default
      effective distance 0, radius 1.0 and strength 1: when no emitter lies
      below the plane z = 0, it reaches none of them, changes nothing and
      returns the sum of the statuses. */
  lemma BaselineProbeChangesNothing(ps: seq<Point>, ss: seq<int>)
    requires |ps| == |ss|
    requires forall j :: 0 <= j < |ps| ==> ps[j].z >= 0.0
    requires forall j :: 0 <= j < |ss| ==> ss[j] >= 0
    ensures After(ps, ss, Quencher(Point(0.0, 0.0, -100.0), 0.0, 1.0, 1)) == ss
    ensures Count(ps, ss, Quencher(Point(0.0, 0.0, -100.0), 0.0, 1.0, 1)) == Sum(ss)
  {
    var q := Quencher(Point(0.0, 0.0, -100.0), 0.0, 1.0, 1);
    forall j | 0 <= j < |ps|
      ensures !InRange(ps[j], q)
    {
      var dz := ps[j].z + 100.0;
      assert dz * dz >= 100.0 * 100.0 by {
        assert dz * dz >= 100.0 * dz;
      }
      assert SquaredDistance(ps[j], q.at) >= dz * dz;
    }
    var vals := Reactions(ps, ss, q);
    assert vals == ss;
    assert Reacted(ps, ss, q) == ss;
    SumNonNegative(ss);
    OutcomeSentinel(vals);
  }
}
