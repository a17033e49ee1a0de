/**
 Motion of cursors and tagged objects: speeds, accelerations, the bounded path, and the states that decide when
 a contact which is no longer reported goes away. Numbers are reals; filters and thresholds are off.
 */
module Motion {
  /** Seconds and microseconds, as the clock gives them. */
  datatype Time = Time(seconds: int, micros: int)
  {
    predicate Normal() { 0 <= micros < 1_000_000 }

    function Minus(earlier: Time): Time {
      var sec, usec := seconds - earlier.seconds, micros - earlier.micros;
      if usec < 0 then Time(sec - 1, usec + 1_000_000) else Time(sec, usec)
    }

    function TotalMilliseconds(): int {
      seconds * 1000 + micros / 1000
    }

    function TotalMicroseconds(): int {
      seconds * 1_000_000 + micros
    }
  }

  function Elapsed(before: Time, after: Time): real {
    after.Minus(before).TotalMilliseconds() as real / 1000.0
  }

  // The borrow loses nothing: the difference is the elapsed time in whole milliseconds, rounded down.
  lemma ElapsedIsFloor(before: Time, after: Time)
    requires before.Normal() && after.Normal()
    ensures after.Minus(before).Normal()
    ensures after.Minus(before).TotalMicroseconds() == after.TotalMicroseconds() - before.TotalMicroseconds()
    ensures Elapsed(before, after) * 1000.0 ==
            ((after.TotalMicroseconds() - before.TotalMicroseconds()) / 1000) as real
  {
    var d := after.Minus(before);
    assert (d.seconds * 1_000_000 + d.micros) / 1000 == d.seconds * 1000 + d.micros / 1000;
  }

  /** What the library's square root is relied on for. */
  ghost predicate IsRoot(sqrt: real -> real) {
    forall v :: v >= 0.0 ==> sqrt(v) >= 0.0 && sqrt(v) * sqrt(v) == v
  }

  datatype State = Idle | Added | Accelerating | Decelerating | Rotating | Stopped | Removed

  datatype Point = Point(x: real, y: real, time: Time)

  function Distance(from: Point, x: real, y: real, sqrt: real -> real): real {
    sqrt((x - from.x) * (x - from.x) + (y - from.y) * (y - from.y))
  }

  const MAX_PATH_SIZE := 128

  type Path = p: seq<Point> | 1 <= |p| <= MAX_PATH_SIZE witness [Point(0.0, 0.0, Time(0, 0))]

  /** Place, motion and history: what cursors and objects share. */
  datatype Container = Container(
    at: Point,
    xSpeed: real, ySpeed: real, speed: real,
    xAccel: real, yAccel: real, accel: real,
    state: State,
    path: Path)
  {
    // The path ends where the container is.
    predicate Valid() {
      && path[|path| - 1] == at
      && speed >= 0.0
      && (state == Accelerating ==> accel > 0.0)
      && (state == Decelerating ==> accel < 0.0)
    }

    predicate Moving() {
      state == Accelerating || state == Decelerating
    }

    function Updated(time: Time, x: real, y: real, sqrt: real -> real): Container
    {
      var last := path[|path| - 1];
      var dt, dx, dy := Elapsed(last.time, time), x - last.x, y - last.y;
      var dist := Distance(last, x, y, sqrt);
      var moved :=
        if dt > 0.0 then
          this.(xSpeed := dx / dt, ySpeed := dy / dt, speed := dist / dt,
                accel := (dist / dt - speed) / dt,
                xAccel := (dx / dt - xSpeed) / dt, yAccel := (dy / dt - ySpeed) / dt)
        else this;
      moved.(at := Point(x, y, time),
             path := Bounded(path + [Point(x, y, time)]),
             state := if moved.accel > 0.0 then Accelerating else if moved.accel < 0.0 then Decelerating else Stopped)
    }

    // A container that is stopped while idle is updated in place; otherwise its clock does not move.
    function StoppedAt(time: Time, sqrt: real -> real): Container
    {
      if state == Idle then Updated(time, at.x, at.y, sqrt) else this.(state := Idle)
    }

    function RemovedAt(time: Time): Container {
      this.(at := at.(time := time), state := Removed)
    }
  }

  function Bounded(path: seq<Point>): seq<Point> {
    if |path| > MAX_PATH_SIZE then path[1..] else path
  }

  function NewContainer(time: Time, x: real, y: real): (c: Container)
    ensures c.Valid() && !c.Moving()
  {
    var at := Point(x, y, time);
    Container(at, 0.0, 0.0, 0.0, 0.0, 0.0, 0.0, Added, [at])
  }

  /** A tagged object: a container that also turns. */
  datatype Tag = Tag(body: Container, angle: real, rotationSpeed: real, rotationAccel: real)
  {
    predicate Valid() {
      body.Valid() && (body.state == Rotating ==> rotationAccel != 0.0)
    }

    predicate Moving() {
      body.Moving() || body.state == Rotating
    }

    function Updated(time: Time, x: real, y: real, a: real, sqrt: real -> real): Tag
    {
      var dt := Elapsed(body.path[|body.path| - 1].time, time);
      var moved := body.Updated(time, x, y, sqrt);
      var turned := Wrapped(angle + Unwound(a - angle));
      var da := Unwound(turned - angle) / (2.0 * PI);
      var rs := if dt > 0.0 then da / dt else rotationSpeed;
      var ra := if dt > 0.0 then (rs - rotationSpeed) / dt else rotationAccel;
      Tag(if ra != 0.0 && moved.state == Stopped then moved.(state := Rotating) else moved, turned, rs, ra)
    }

    function StoppedAt(time: Time, sqrt: real -> real): Tag
    {
      Updated(time, body.at.x, body.at.y, angle, sqrt)
    }
  }

  function NewTag(time: Time, x: real, y: real, a: real): (t: Tag)
    ensures t.Valid() && !t.Moving()
  {
    Tag(NewContainer(time, x, y), a, 0.0, 0.0)
  }

  const PI: real := 3.14159265358979323846

  function Wrapped(angle: real): real {
    if angle > 2.0 * PI then angle - 2.0 * PI else if angle < 0.0 then angle + 2.0 * PI else angle
  }

  function Unwound(turn: real): real {
    if turn > PI then turn - 2.0 * PI else if turn < -PI then turn + 2.0 * PI else turn
  }

  // ---- what one update keeps and computes

  lemma DistanceIsLength(from: Point, x: real, y: real, sqrt: real -> real)
    requires IsRoot(sqrt)
    ensures Distance(from, x, y, sqrt) >= 0.0
    ensures Distance(from, x, y, sqrt) * Distance(from, x, y, sqrt) ==
            (x - from.x) * (x - from.x) + (y - from.y) * (y - from.y)
  {
    var dx, dy := x - from.x, y - from.y;
    assert dx * dx >= 0.0 && dy * dy >= 0.0;
  }

  lemma Product(a: real, b: real, p: real)
    requires a > 0.0 && b > 0.0 && p == a * b
    ensures p > 0.0
  {
  }

  lemma DistanceToItself(p: Point, sqrt: real -> real)
    requires IsRoot(sqrt)
    ensures Distance(p, p.x, p.y, sqrt) == 0.0
  {
    DistanceIsLength(p, p.x, p.y, sqrt);
    var r := Distance(p, p.x, p.y, sqrt);
    hide IsRoot, Distance;
    assert r * r == 0.0;
    if r > 0.0 {
      Product(r, r, r * r);
    }
  }

  lemma UpdateKeepsContainer(c: Container, time: Time, x: real, y: real, sqrt: real -> real)
    requires c.Valid() && IsRoot(sqrt)
    ensures c.Updated(time, x, y, sqrt).Valid()
    ensures c.Updated(time, x, y, sqrt).at == Point(x, y, time)
  {
    DistanceIsLength(c.at, x, y, sqrt);
    var dt, dist := Elapsed(c.at.time, time), Distance(c.at, x, y, sqrt);
    hide IsRoot, Distance, Elapsed;
    if dt > 0.0 {
      QuotientSign(dist, dt);
    }
  }

  lemma UpdateKeepsTag(t: Tag, time: Time, x: real, y: real, a: real, sqrt: real -> real)
    requires t.Valid() && IsRoot(sqrt)
    ensures t.Updated(time, x, y, a, sqrt).Valid()
    ensures t.Updated(time, x, y, a, sqrt).body.at == Point(x, y, time)
  {
    UpdateKeepsContainer(t.body, time, x, y, sqrt);
  }

  /**
   Speed is the length of the velocity, the displacement is the velocity times the elapsed time, and the change of
   speed is the acceleration times it.
   */
  lemma SpeedIsLength(c: Container, time: Time, x: real, y: real, sqrt: real -> real)
    requires c.Valid() && IsRoot(sqrt) && Elapsed(c.at.time, time) > 0.0
    ensures var u := c.Updated(time, x, y, sqrt);
            var dt := Elapsed(c.at.time, time);
            && u.speed * u.speed == u.xSpeed * u.xSpeed + u.ySpeed * u.ySpeed
            && c.at.x + u.xSpeed * dt == x && c.at.y + u.ySpeed * dt == y
            && c.speed + u.accel * dt == u.speed
  {
    var dx, dy, dt := x - c.at.x, y - c.at.y, Elapsed(c.at.time, time);
    DistanceIsLength(c.at, x, y, sqrt);
    var dist := Distance(c.at, x, y, sqrt);
    hide IsRoot, Elapsed, Distance;
    SquaredQuotient(dx, dy, dist, dt);
    var u := c.Updated(time, x, y, sqrt);
    assert u.xSpeed == dx / dt && u.ySpeed == dy / dt && u.speed == dist / dt && u.accel == (u.speed - c.speed) / dt;
    Times(u.speed - c.speed, dt);
  }

  /** The same for each axis. */
  lemma AxesAccelerate(c: Container, time: Time, x: real, y: real, sqrt: real -> real)
    requires c.Valid() && Elapsed(c.at.time, time) > 0.0
    ensures var u := c.Updated(time, x, y, sqrt);
            var dt := Elapsed(c.at.time, time);
            && c.xSpeed + u.xAccel * dt == u.xSpeed && c.ySpeed + u.yAccel * dt == u.ySpeed
  {
    var u, dt := c.Updated(time, x, y, sqrt), Elapsed(c.at.time, time);
    hide Elapsed, Distance;
    Times(u.xSpeed - c.xSpeed, dt);
    Times(u.ySpeed - c.ySpeed, dt);
  }

  /** A container accelerates exactly if it has become faster, and decelerates exactly if it has become slower. */
  lemma StateFollowsSpeed(c: Container, time: Time, x: real, y: real, sqrt: real -> real)
    requires c.Valid() && Elapsed(c.at.time, time) > 0.0
    ensures var u := c.Updated(time, x, y, sqrt);
            && (u.state == Accelerating <==> u.speed > c.speed)
            && (u.state == Decelerating <==> u.speed < c.speed)
            && (u.state == Stopped <==> u.speed == c.speed)
  {
    var u := c.Updated(time, x, y, sqrt);
    hide Elapsed, Distance;
    QuotientSign(u.speed - c.speed, Elapsed(c.at.time, time));
  }

  /** With no time between, only the place and the path change, and the state is that of the old acceleration. */
  lemma NoTimeNoMotion(t: Tag, time: Time, x: real, y: real, a: real, sqrt: real -> real)
    requires t.Valid() && Elapsed(t.body.at.time, time) <= 0.0
    ensures var u := t.Updated(time, x, y, a, sqrt);
            && u.body.at == Point(x, y, time) && u.body.path == Bounded(t.body.path + [Point(x, y, time)])
            && u.body.xSpeed == t.body.xSpeed && u.body.ySpeed == t.body.ySpeed && u.body.speed == t.body.speed
            && u.body.xAccel == t.body.xAccel && u.body.yAccel == t.body.yAccel && u.body.accel == t.body.accel
            && u.rotationSpeed == t.rotationSpeed && u.rotationAccel == t.rotationAccel
            && (u.Moving() <==> t.body.accel != 0.0 || t.rotationAccel != 0.0)
  {
    hide Elapsed, Distance, Wrapped, Unwound;
  }

  lemma SquaredQuotient(dx: real, dy: real, dist: real, dt: real)
    requires dt > 0.0 && dist * dist == dx * dx + dy * dy
    ensures (dist / dt) * (dist / dt) == (dx / dt) * (dx / dt) + (dy / dt) * (dy / dt)
  {
    var a, b, d := dx / dt, dy / dt, dist / dt;
    var s, v := dt * dt, d * d - (a * a + b * b);
    assert dx == a * dt && dy == b * dt && dist == d * dt;
    Scaled(a, b, d, dt, s, dx, dy, dist);
    Product(dt, dt, s);
    if v > 0.0 {
      Product(v, s, v * s);
    } else if v < 0.0 {
      Product(-v, s, -v * s);
    }
  }

  lemma Scaled(a: real, b: real, d: real, dt: real, s: real, dx: real, dy: real, dist: real)
    requires dx == a * dt && dy == b * dt && dist == d * dt && dist * dist == dx * dx + dy * dy && s == dt * dt
    ensures (d * d - (a * a + b * b)) * s == 0.0
  {
    assert dist * dist == (d * d) * s;
    assert dx * dx == (a * a) * s;
    assert dy * dy == (b * b) * s;
  }

  function WholeTurns(k: int): real {
    k as real * (2.0 * PI)
  }

  /**
   The angle is always the reported one up to whole turns, and the rotation speed the turn it took. Reported within
   one turn, it stays within one turn and takes the shorter way round.
   */
  lemma AngleFollows(t: Tag, time: Time, x: real, y: real, a: real, sqrt: real -> real)
    requires t.Valid()
    ensures var u := t.Updated(time, x, y, a, sqrt);
            var turn := Unwound(u.angle - t.angle);
            var dt := Elapsed(t.body.at.time, time);
            && (exists k :: -2 <= k <= 2 && u.angle == a + WholeTurns(k))
            && (exists k :: -3 <= k <= 3 && t.angle + turn == a + WholeTurns(k))
            && (dt > 0.0 ==> u.rotationSpeed * dt == turn / (2.0 * PI))
            && (0.0 <= t.angle <= 2.0 * PI && 0.0 <= a <= 2.0 * PI ==>
                 && 0.0 <= u.angle <= 2.0 * PI
                 && (u.angle == a || (u.angle == 0.0 && a == 2.0 * PI) || (u.angle == 2.0 * PI && a == 0.0))
                 && -PI <= turn <= PI)
  {
    var dt := Elapsed(t.body.at.time, time);
    hide Elapsed, Container.Updated, Wrapped, Unwound, WholeTurns;
    var u := t.Updated(time, x, y, a, sqrt);
    TurnsTaken(t.angle, a);
    if 0.0 <= t.angle <= 2.0 * PI && 0.0 <= a <= 2.0 * PI {
      ShorterWay(t.angle, a);
    }
    if dt > 0.0 {
      Times(Unwound(u.angle - t.angle) / (2.0 * PI), dt);
    }
  }

  /** The rotation acceleration is the change of the rotation speed; an object rotates if that is all that changed. */
  lemma RotationFollows(t: Tag, time: Time, x: real, y: real, a: real, sqrt: real -> real)
    requires t.Valid() && Elapsed(t.body.at.time, time) > 0.0
    ensures var u := t.Updated(time, x, y, a, sqrt);
            && t.rotationSpeed + u.rotationAccel * Elapsed(t.body.at.time, time) == u.rotationSpeed
            && (u.body.state == Rotating <==> u.body.speed == t.body.speed && u.rotationSpeed != t.rotationSpeed)
  {
    var dt := Elapsed(t.body.at.time, time);
    StateFollowsSpeed(t.body, time, x, y, sqrt);
    hide Elapsed, Container.Updated, Wrapped, Unwound;
    var u := t.Updated(time, x, y, a, sqrt);
    Times(u.rotationSpeed - t.rotationSpeed, dt);
    QuotientSign(u.rotationSpeed - t.rotationSpeed, dt);
  }

  lemma UnwoundTurns(turn: real) returns (k: int)
    ensures -1 <= k <= 1 && Unwound(turn) == turn + WholeTurns(k)
  {
    k := if turn > PI then -1 else if turn < -PI then 1 else 0;
  }

  lemma WrappedTurns(angle: real) returns (k: int)
    ensures -1 <= k <= 1 && Wrapped(angle) == angle + WholeTurns(k)
  {
    k := if angle > 2.0 * PI then -1 else if angle < 0.0 then 1 else 0;
  }

  lemma TurnsTaken(angle: real, a: real)
    ensures var turned := Wrapped(angle + Unwound(a - angle));
            && (exists k :: -2 <= k <= 2 && turned == a + WholeTurns(k))
            && (exists k :: -3 <= k <= 3 && angle + Unwound(turned - angle) == a + WholeTurns(k))
  {
    var i := UnwoundTurns(a - angle);
    var j := WrappedTurns(angle + Unwound(a - angle));
    var turned := Wrapped(angle + Unwound(a - angle));
    var l := UnwoundTurns(turned - angle);
    assert turned == a + WholeTurns(i + j);
    assert angle + Unwound(turned - angle) == a + WholeTurns(i + j + l);
  }

  lemma ShorterWay(angle: real, a: real)
    requires 0.0 <= angle <= 2.0 * PI && 0.0 <= a <= 2.0 * PI
    ensures var turned := Wrapped(angle + Unwound(a - angle));
            && 0.0 <= turned <= 2.0 * PI
            && (turned == a || (turned == 0.0 && a == 2.0 * PI) || (turned == 2.0 * PI && a == 0.0))
            && -PI <= Unwound(turned - angle) <= PI
  {}

  lemma Times(v: real, dt: real)
    requires dt > 0.0
    ensures (v / dt) * dt == v
  {
  }

  // ---- the path

  function LastOf(points: seq<Point>): seq<Point> {
    if |points| > MAX_PATH_SIZE then points[|points| - MAX_PATH_SIZE..] else points
  }

  function Visited(c: Container, points: seq<Point>, sqrt: real -> real): Container
    decreases |points|
  {
    if points == [] then c
    else
      var n := |points| - 1;
      Visited(c, points[..n], sqrt).Updated(points[n].time, points[n].x, points[n].y, sqrt)
  }

  /** However long a contact lives, its path is its last 128 points. */
  lemma {:induction false} PathIsLastPoints(time: Time, x: real, y: real, points: seq<Point>, sqrt: real -> real)
    ensures Visited(NewContainer(time, x, y), points, sqrt).path == LastOf([Point(x, y, time)] + points)
    decreases |points|
  {
    hide Container.Updated, Bounded, LastOf;
    var start := NewContainer(time, x, y);
    ShortPath(Point(x, y, time));
    if points != [] {
      var n := |points| - 1;
      var before := Visited(start, points[..n], sqrt);
      PathIsLastPoints(time, x, y, points[..n], sqrt);
      var all := [Point(x, y, time)] + points[..n];
      assert [Point(x, y, time)] + points == all + [points[n]];
      UpdatedPath(before, points[n], sqrt);
      LastOfLonger(all, points[n]);
    } else {
      assert [Point(x, y, time)] + points == [Point(x, y, time)];
    }
  }

  lemma UpdatedPath(c: Container, p: Point, sqrt: real -> real)
    ensures c.Updated(p.time, p.x, p.y, sqrt).path == Bounded(c.path + [p])
  {
  }

  lemma ShortPath(p: Point)
    ensures LastOf([p]) == [p]
  {
  }

  lemma LastOfLonger(points: seq<Point>, p: Point)
    ensures Bounded(LastOf(points) + [p]) == LastOf(points + [p])
  {
  }

  // ---- a tagged object that is not reported

  /** A cursor stops where it is; a moving one is idle at once, and an idle one only has its clock set. */
  lemma CursorStops(c: Container, time: Time, sqrt: real -> real)
    requires c.Valid()
    ensures var s := c.StoppedAt(time, sqrt);
            && s.at.x == c.at.x && s.at.y == c.at.y
            && (c.Moving() ==> s == c.(state := Idle) && !s.Moving())
            && (c.state == Idle ==> s.at.time == time)
  {}

  /** A removed contact keeps its place, by which its identifier is later given out again. */
  lemma RemovedKeepsPlace(c: Container, time: Time)
    ensures var r := c.RemovedAt(time); r.at == Point(c.at.x, c.at.y, time) && r.path == c.path && !r.Moving()
  {}

  lemma StopStandsStill(t: Tag, time: Time, sqrt: real -> real)
    requires t.Valid() && IsRoot(sqrt)
    ensures var s := t.StoppedAt(time, sqrt);
            var dt := Elapsed(t.body.at.time, time);
            && s.body.at == t.body.at.(time := time)
            && (dt > 0.0 ==>
                 && s.body.speed == 0.0 && s.rotationSpeed == 0.0
                 && (s.Moving() <==> t.body.speed != 0.0 || t.rotationSpeed != 0.0))
            && (dt <= 0.0 && t.Moving() ==> s.Moving())
  {
    DistanceToItself(t.body.at, sqrt);
    var dt := Elapsed(t.body.at.time, time);
    hide IsRoot, Elapsed, Distance;
    assert Unwound(t.angle - t.angle) == 0.0;
    assert Unwound(Wrapped(t.angle) - t.angle) == 0.0;
    var s := t.StoppedAt(time, sqrt);
    if dt > 0.0 {
      QuotientSign(0.0, dt);
      QuotientSign(-t.body.speed, dt);
      QuotientSign(-t.rotationSpeed, dt);
    }
  }

  lemma QuotientSign(v: real, dt: real)
    requires dt > 0.0
    ensures v / dt == 0.0 <==> v == 0.0
    ensures v / dt > 0.0 <==> v > 0.0
  {
    assert (v / dt) * dt == v;
  }

  /** An object that stood still and is reported elsewhere later moves. */
  lemma ReportedElsewhereMoves(t: Tag, time: Time, x: real, y: real, a: real, sqrt: real -> real)
    requires t.Valid() && IsRoot(sqrt) && t.body.speed == 0.0 && Elapsed(t.body.at.time, time) > 0.0
    requires x != t.body.at.x || y != t.body.at.y
    ensures t.Updated(time, x, y, a, sqrt).Moving()
  {
    var dt, dist := Elapsed(t.body.at.time, time), Distance(t.body.at, x, y, sqrt);
    DistanceIsLength(t.body.at, x, y, sqrt);
    hide IsRoot, Distance, Elapsed, Wrapped, Unwound;
    ApartIsPositive(x - t.body.at.x, y - t.body.at.y, dist);
    QuotientSign(dist, dt);
    QuotientSign(dist / dt - t.body.speed, dt);
  }

  lemma ApartIsPositive(dx: real, dy: real, dist: real)
    requires dist >= 0.0 && dist * dist == dx * dx + dy * dy && (dx != 0.0 || dy != 0.0)
    ensures dist > 0.0
  {
    Square(dx, dx * dx);
    Square(dy, dy * dy);
    Square(dist, dist * dist);
  }

  lemma Square(v: real, p: real)
    requires p == v * v
    ensures if v == 0.0 then p == 0.0 else p > 0.0
  {
    if v > 0.0 {
      Product(v, v, p);
    } else if v < 0.0 {
      Product(-v, -v, p);
    }
  }
}
