/** Drawing points, lines and polygons in batches of device points. */
module SkiaPoints {
  import opened Bytes

  datatype Mode = Points | Lines | Polygon

  datatype Point = Point(x: real, y: real)

  /** What a drawing procedure hands to the rasteriser. */
  datatype Primitive = Dot(p: Point) | Segment(a: Point, b: Point)

  const MAX_DEV_PTS := 32

  // ---------------------------------------------------------------- one pass without batches

  function Mapped(matrix: Point -> Point, pts: seq<Point>): seq<Point> {
    seq(|pts|, i requires 0 <= i < |pts| => matrix(pts[i]))
  }

  function Dots(p: seq<Point>): seq<Primitive> {
    seq(|p|, i requires 0 <= i < |p| => Dot(p[i]))
  }

  /** Lines: points taken in pairs. */
  function Pairs(p: seq<Point>): seq<Primitive> {
    seq(|p| / 2, i requires 0 <= i < |p| / 2 => Segment(p[2 * i], p[2 * i + 1]))
  }

  /** A polygon: a segment between neighbours. */
  function Sides(p: seq<Point>): seq<Primitive> {
    seq(if p == [] then 0 else |p| - 1, i requires 0 <= i < |p| - 1 => Segment(p[i], p[i + 1]))
  }

  function Drawn(mode: Mode, p: seq<Point>): seq<Primitive> {
    match mode
    case Points => Dots(p)
    case Lines => Pairs(p)
    case Polygon => Sides(p)
  }

  // ---------------------------------------------------------------- the procedures

  /** The drawing procedure of a mode, over one batch. */
  method Proc(mode: Mode, dev: array<Point>, count: nat) returns (out: seq<Primitive>)
    requires count <= dev.Length && (mode == Lines ==> count % 2 == 0)
    ensures out == Drawn(mode, dev[..count])
  {
    out := [];
    var i := 0;
    match mode
    case Points =>
      while i < count
        invariant 0 <= i <= count && out == Dots(dev[..count])[..i]
      {
        out := out + [Dot(dev[i])];
        i := i + 1;
      }
    case Lines =>
      while i < count
        invariant 0 <= i <= count && i % 2 == 0 && out == Pairs(dev[..count])[..i / 2]
      {
        out := out + [Segment(dev[i], dev[i + 1])];
        i := i + 2;
      }
    case Polygon =>
      while i < count - 1
        invariant 0 <= i && (i <= count - 1 || (i == 0 && count == 0)) && out == Sides(dev[..count])[..i]
      {
        out := out + [Segment(dev[i], dev[i + 1])];
        i := i + 1;
      }
  }

  // ---------------------------------------------------------------- batches join up

  /** How far the next batch steps back. */
  function Backup(mode: Mode): nat {
    if mode == Polygon then 1 else 0
  }

  lemma DotsJoin(p: seq<Point>, n: nat)
    requires n <= |p|
    ensures Dots(p) == Dots(p[..n]) + Dots(p[n..])
  {
  }

  lemma PairsJoin(p: seq<Point>, n: nat)
    requires n <= |p| && n % 2 == 0 && |p| % 2 == 0
    ensures Pairs(p) == Pairs(p[..n]) + Pairs(p[n..])
  {
    var a, b := Pairs(p[..n]), Pairs(p[n..]);
    assert |a| == n / 2 && |b| == |p| / 2 - n / 2;
    forall i | 0 <= i < |p| / 2 ensures Pairs(p)[i] == (a + b)[i] {
      if i < n / 2 {
        assert a[i] == Segment(p[2 * i], p[2 * i + 1]);
      } else {
        var j := i - n / 2;
        assert b[j] == Segment(p[n..][2 * j], p[n..][2 * j + 1]);
        assert n + 2 * j == 2 * i;
      }
    }
  }

  lemma SidesJoin(p: seq<Point>, n: nat)
    requires 0 < n <= |p|
    ensures Sides(p) == Sides(p[..n]) + Sides(p[n - 1..])
  {
  }

  /** Drawing a first batch of n points and then the rest, which in polygon mode starts with the
      last point of the batch again, draws what one pass draws. */
  lemma BatchesJoin(mode: Mode, p: seq<Point>, n: nat)
    requires 0 < n <= |p| && (mode == Lines ==> n % 2 == 0 && |p| % 2 == 0)
    ensures Drawn(mode, p) == Drawn(mode, p[..n]) + Drawn(mode, p[n - Backup(mode)..])
  {
    var first, rest := p[..n], p[n - Backup(mode)..];
    match mode
    case Points =>
      DotsJoin(p, n);
    case Lines =>
      PairsJoin(p, n);
    case Polygon =>
      SidesJoin(p, n);
  }

  lemma NothingLeft(mode: Mode, p: seq<Point>)
    requires |p| == Backup(mode)
    ensures Drawn(mode, p) == []
  {
  }

  /** Drawing goes on at position at: out holds what the points in front of it draw. */
  ghost predicate DrawnUpTo(mode: Mode, all: seq<Point>, at: nat, out: seq<Primitive>) {
    at <= |all| && Drawn(mode, all) == out + Drawn(mode, all[at..])
  }

  lemma OneMoreBatch(mode: Mode, all: seq<Point>, at: nat, n: nat, out: seq<Primitive>, batch: seq<Primitive>)
    requires DrawnUpTo(mode, all, at, out) && 0 < n && at + n <= |all|
    requires mode == Lines ==> n % 2 == 0 && (|all| - at) % 2 == 0
    requires batch == Drawn(mode, all[at..at + n])
    ensures DrawnUpTo(mode, all, at + n - Backup(mode), out + batch)
  {
    var rest, next := all[at..], at + n - Backup(mode);
    BatchesJoin(mode, rest, n);
    Slices(all, at, n, Backup(mode));
    Assoc(out, batch, Drawn(mode, all[next..]));
  }

  lemma Slices(all: seq<Point>, at: nat, n: nat, back: nat)
    requires at + n <= |all| && back <= n
    ensures all[at..][..n] == all[at..at + n] && all[at..][n - back..] == all[at + n - back..]
  {
  }

  // ---------------------------------------------------------------- drawPoints

  /** Maps n points into the device buffer and draws them. */
  method DrawBatch(mode: Mode, dev: array<Point>, points: seq<Point>, at: nat, n: nat, matrix: Point -> Point)
    returns (batch: seq<Primitive>)
    requires n <= dev.Length && at + n <= |points| && (mode == Lines ==> n % 2 == 0)
    modifies dev
    ensures batch == Drawn(mode, Mapped(matrix, points)[at..at + n])
  {
    forall i | 0 <= i < n {
      dev[i] := matrix(points[at + i]);
    }
    assert dev[..n] == Mapped(matrix, points)[at..at + n];
    batch := Proc(mode, dev, n);
  }

  /** count points are left at position at, those counted twice included. */
  ghost predicate Left(mode: Mode, all: seq<Point>, at: nat, count: nat) {
    at + (if count == 0 then Backup(mode) else count) == |all| && (mode == Lines ==> count % 2 == 0)
  }

  /** One batch: its points are drawn, and the position and count move on. */
  method NextBatch(mode: Mode, dev: array<Point>, points: seq<Point>, matrix: Point -> Point, at: nat, count: nat, ghost out: seq<Primitive>)
    returns (batch: seq<Primitive>, at': nat, count': nat)
    requires dev.Length == MAX_DEV_PTS && count > 0
    requires DrawnUpTo(mode, Mapped(matrix, points), at, out) && Left(mode, Mapped(matrix, points), at, count)
    modifies dev
    ensures DrawnUpTo(mode, Mapped(matrix, points), at', out + batch) && Left(mode, Mapped(matrix, points), at', count')
    ensures count' < count
  {
    var n := count;
    if n > MAX_DEV_PTS {
      n := MAX_DEV_PTS;
    }
    ghost var all := Mapped(matrix, points);
    assert at + count == |all| == |points|;
    batch := DrawBatch(mode, dev, points, at, n, matrix);
    OneMoreBatch(mode, all, at, n, out, batch);
    var backup := Backup(mode);
    at' := at + n - backup;
    count' := count - n;
    if count' > 0 {
      count' := count' + backup;
    }
  }

  /** Every point is mapped; dots stand for single points, segments for pairs of them or for
      neighbours. */
  ghost predicate InPlainTerms(mode: Mode, points: seq<Point>, matrix: Point -> Point, out: seq<Primitive>) {
    match mode
    case Points => |out| == |points| && forall i :: 0 <= i < |out| ==> out[i] == Dot(matrix(points[i]))
    case Lines =>
      |out| == |points| / 2 &&
      forall i :: 0 <= i < |out| ==> out[i] == Segment(matrix(points[2 * i]), matrix(points[2 * i + 1]))
    case Polygon =>
      |out| == (if points == [] then 0 else |points| - 1) &&
      forall i :: 0 <= i < |out| ==> out[i] == Segment(matrix(points[i]), matrix(points[i + 1]))
  }

  lemma DrawnInPlainTerms(mode: Mode, points: seq<Point>, matrix: Point -> Point)
    ensures var kept := if mode == Lines then points[..|points| / 2 * 2] else points;
            InPlainTerms(mode, points, matrix, Drawn(mode, Mapped(matrix, kept)))
  {
  }

  /** The device branch of drawPoints: whatever the number of points, the batches draw exactly
      what one pass over all of them draws, in the same order. */
  method DrawPoints(mode: Mode, points: seq<Point>, matrix: Point -> Point) returns (out: seq<Primitive>)
    ensures var kept := if mode == Lines then points[..|points| / 2 * 2] else points;
            out == Drawn(mode, Mapped(matrix, kept))
    ensures InPlainTerms(mode, points, matrix, out)
  {
    var count := |points|;
    if mode == Lines {
      count := count / 2 * 2;
    }
    DrawnInPlainTerms(mode, points, matrix);
    out := [];
    if count <= 0 {
      return;
    }
    assert points[..|points|] == points;
    var kept := points[..count];
    ghost var all := Mapped(matrix, kept);
    NothingDrawn(mode, all);
    var dev := new Point[MAX_DEV_PTS](_ => Point(0.0, 0.0));
    var pts := 0;
    while count != 0
      invariant 0 <= pts && 0 <= count && DrawnUpTo(mode, all, pts, out) && Left(mode, all, pts, count)
      decreases count
    {
      var batch;
      batch, pts, count := NextBatch(mode, dev, kept, matrix, pts, count, out);
      out := out + batch;
    }
    AllDrawn(mode, all, pts, out);
  }

  lemma NothingDrawn(mode: Mode, all: seq<Point>)
    ensures DrawnUpTo(mode, all, 0, [])
  {
    assert all[0..] == all && [] + Drawn(mode, all) == Drawn(mode, all);
  }

  lemma AllDrawn(mode: Mode, all: seq<Point>, at: nat, out: seq<Primitive>)
    requires DrawnUpTo(mode, all, at, out) && Left(mode, all, at, 0)
    ensures out == Drawn(mode, all)
  {
    NothingLeft(mode, all[at..]);
    assert out + [] == out;
  }
}
