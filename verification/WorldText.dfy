/** Floating combat text: placement along a curve, and displacement clear of other text. */
module WorldText {
  import opened Options

  const FLOAT_TOTAL_FRAMES: int := 342
  const FLOAT_FADE_FRAMES: int := 234

  /** Screen pixels, exclusive on the right and bottom edges. */
  datatype Rect = Rect(left: int, top: int, right: int, bottom: int) {
    predicate Intersects(other: Rect) {
      left < other.right && other.left < right && top < other.bottom && other.top < bottom
    }

    function Moved(dy: int): Rect {
      Rect(left, top + dy, right, bottom + dy)
    }

    /** The rendered bounds around this rect: its edges moved out by the padding. */
    function Padded(pad: Rect): Rect {
      Rect(left + pad.left, top + pad.top, right + pad.right, bottom + pad.bottom)
    }
  }

  /** Rects that cover any pixels intersect exactly when some pixel is in both. */
  lemma IntersectIsSharedPixel(a: Rect, b: Rect)
    requires a.left < a.right && a.top < a.bottom && b.left < b.right && b.top < b.bottom
    ensures a.Intersects(b) <==> exists x, y :: Covers(a, x, y) && Covers(b, x, y)
  {
    if a.Intersects(b) {
      var x, y := if a.left > b.left then a.left else b.left, if a.top > b.top then a.top else b.top;
      assert Covers(a, x, y) && Covers(b, x, y);
    }
  }

  predicate Covers(rect: Rect, x: int, y: int) {
    rect.left <= x < rect.right && rect.top <= y < rect.bottom
  }

  datatype Direction = Up | Down | Arc

  function Sign(d: Direction): int {
    if d == Down then 1 else -1
  }

  /** How far `bounds` must travel to be just past `other`. */
  function Room(bounds: Rect, other: Rect, d: Direction): int {
    if d == Down then other.bottom - bounds.top else bounds.bottom - other.top
  }

  /** After travelling `distance` the bounds hit no blocker. */
  predicate Clear(bounds: Rect, blockers: seq<Rect>, d: Direction, distance: int) {
    forall b :: b in blockers ==> !bounds.Moved(Sign(d) * distance).Intersects(b)
  }

  /** The shortest travel that clears every blocker. */
  ghost predicate LeastClear(bounds: Rect, blockers: seq<Rect>, d: Direction, distance: nat) {
    Clear(bounds, blockers, d, distance) && forall e :: 0 <= e < distance ==> !Clear(bounds, blockers, d, e)
  }

  /** The answer depends on which blockers there are, not on their order or repetition. */
  lemma OrderIsIrrelevant(bounds: Rect, some: seq<Rect>, others: seq<Rect>, d: Direction, x: nat, y: nat)
    requires forall b :: b in some <==> b in others
    requires LeastClear(bounds, some, d, x) && LeastClear(bounds, others, d, y)
    ensures x == y
  {
    assert forall e :: Clear(bounds, some, d, e) <==> Clear(bounds, others, d, e);
  }

  /** Text already clear of its blockers does not move again. */
  lemma ClearTextStays(bounds: Rect, blockers: seq<Rect>, d: Direction, x: nat, y: nat)
    requires LeastClear(bounds, blockers, d, x)
    requires LeastClear(bounds.Moved(Sign(d) * x), blockers, d, y)
    ensures y == 0
  {
    var moved := bounds.Moved(Sign(d) * x);
    assert forall b: Rect :: moved.Moved(Sign(d) * 0).Intersects(b) == moved.Intersects(b);
    assert Clear(bounds.Moved(Sign(d) * x), blockers, d, 0);
  }

  /** Blockers not yet behind the bounds. */
  function Ahead(bounds: Rect, blockers: seq<Rect>, d: Direction): nat {
    if blockers == [] then 0
    else Ahead(bounds, blockers[1..], d) + if Room(bounds, blockers[0], d) > 0 then 1 else 0
  }

  /** Moving past a blocker leaves fewer ahead: travel never brings one back. */
  lemma {:induction false} MovingLeavesFewer(bounds: Rect, blockers: seq<Rect>, d: Direction, distance: nat)
    ensures Ahead(bounds.Moved(Sign(d) * distance), blockers, d) <= Ahead(bounds, blockers, d)
    ensures (exists b :: b in blockers && Room(bounds, b, d) == distance > 0) ==>
      Ahead(bounds.Moved(Sign(d) * distance), blockers, d) < Ahead(bounds, blockers, d)
  {
    if blockers != [] {
      MovingLeavesFewer(bounds, blockers[1..], d, distance);
      if b :| b in blockers && Room(bounds, b, d) == distance > 0 {
        assert b == blockers[0] || b in blockers[1..];
      }
    }
  }

  /** Part of the way past a blocker that is hit now, it is still hit. */
  lemma StillHit(bounds: Rect, b: Rect, d: Direction, e: nat)
    requires bounds.Intersects(b) && e < Room(bounds, b, d)
    ensures bounds.Moved(Sign(d) * e).Intersects(b)
  {
  }

  /** On the way past a blocker the bounds are not clear. */
  lemma NotYetClear(bounds: Rect, blockers: seq<Rect>, d: Direction, moved: nat, hit: Rect, distance: nat)
    requires hit in blockers && bounds.Moved(Sign(d) * moved).Intersects(hit)
    requires Room(bounds.Moved(Sign(d) * moved), hit, d) == distance
    ensures forall e :: moved <= e < moved + distance ==> !Clear(bounds, blockers, d, e)
  {
    var at := bounds.Moved(Sign(d) * moved);
    forall e | moved <= e < moved + distance
      ensures !Clear(bounds, blockers, d, e)
    {
      StillHit(at, hit, d, e - moved);
      assert bounds.Moved(Sign(d) * e) == at.Moved(Sign(d) * (e - moved));
    }
  }

  /** The largest travel any blocker that is hit asks for; zero when none is hit. */
  method FarthestRoom(bounds: Rect, blockers: seq<Rect>, d: Direction) returns (distance: nat)
    ensures distance == 0 ==> forall b :: b in blockers ==> !bounds.Intersects(b)
    ensures distance > 0 ==> exists b :: b in blockers && bounds.Intersects(b) && Room(bounds, b, d) == distance
    ensures forall b :: b in blockers && bounds.Intersects(b) ==> Room(bounds, b, d) <= distance
  {
    distance := 0;
    for i := 0 to |blockers|
      invariant distance == 0 ==> forall j :: 0 <= j < i ==> !bounds.Intersects(blockers[j])
      invariant distance > 0 ==> exists b :: b in blockers && bounds.Intersects(b) && Room(bounds, b, d) == distance
      invariant forall j :: 0 <= j < i && bounds.Intersects(blockers[j]) ==> Room(bounds, blockers[j], d) <= distance
    {
      var other := blockers[i];
      if bounds.Intersects(other) && Room(bounds, other, d) > distance {
        distance := Room(bounds, other, d);
      }
    }
  }

  /** `f64 -> i32` toward zero, saturating. */
  function Truncate(v: real): int {
    if v >= 2147483647.0 then 0x7fff_ffff
    else if v <= -2147483648.0 then -0x8000_0000
    else if v >= 0.0 then v.Floor else -((-v).Floor)
  }

  /** Half of a width, toward zero. */
  function Halved(width: int): int {
    if width >= 0 then width / 2 else -(-width / 2)
  }

  function ElapsedFrames(now: int, start: int, ticksPerFrame: int): nat
    requires ticksPerFrame > 0
  {
    var frames := (if now > start then now - start else 0) / ticksPerFrame;
    if frames <= 0xffff_ffff then frames else 0xffff_ffff
  }

  /** Opaque until the fade starts, then in a straight line to nothing at the last frame. */
  function AlphaAt(elapsed: nat): (alpha: real)
    ensures elapsed < FLOAT_TOTAL_FRAMES ==> 0.0 < alpha <= 1.0
    ensures elapsed < FLOAT_TOTAL_FRAMES && alpha == 1.0 ==> elapsed <= FLOAT_FADE_FRAMES
  {
    if elapsed <= FLOAT_FADE_FRAMES then 1.0 else (FLOAT_TOTAL_FRAMES - elapsed) as real / 108.0
  }

  /** Opaque up to the fade, and from there equal steps down to nothing at the last frame. */
  lemma FadesEvenly(elapsed: nat)
    ensures elapsed <= 234 ==> AlphaAt(elapsed) == 1.0
    ensures 234 <= elapsed < 342 ==> 108.0 * (AlphaAt(elapsed) - AlphaAt(elapsed + 1)) == 1.0
    ensures AlphaAt(342) == 0.0
  {
  }

  /** Whole frames since the start, none before it, up to the 32-bit limit. */
  lemma FramesElapsed(now: int, start: int, ticksPerFrame: int)
    requires ticksPerFrame > 0
    ensures var frames := ElapsedFrames(now, start, ticksPerFrame);
      && (now <= start ==> frames == 0)
      && (now >= start ==> frames * ticksPerFrame <= now - start)
      && (frames < 0xffff_ffff && now >= start ==> now - start < (frames + 1) * ticksPerFrame)
  {
    if now > start {
      Quotient(now - start, ticksPerFrame);
      var frames := (now - start) / ticksPerFrame;
      if frames > 0xffff_ffff {
        SmallerProduct(0xffff_ffff, frames, ticksPerFrame);
      }
    }
  }

  lemma Quotient(n: nat, d: nat)
    requires d > 0
    ensures n / d * d <= n < (n / d + 1) * d
  {
  }

  lemma SmallerProduct(a: nat, b: nat, d: nat)
    requires a <= b
    ensures a * d <= b * d
  {
  }

  /** A line's life in ticks. */
  lemma LifeInTicks(now: int, start: int, ticksPerFrame: int)
    requires ticksPerFrame > 0
    ensures ElapsedFrames(now, start, ticksPerFrame) >= 342 <==> now - start >= 342 * ticksPerFrame
  {
    FramesElapsed(now, start, ticksPerFrame);
    var frames := ElapsedFrames(now, start, ticksPerFrame);
    if frames >= 342 {
      SmallerProduct(342, frames, ticksPerFrame);
    } else {
      SmallerProduct(frames + 1, 342, ticksPerFrame);
    }
  }

  /** `n` is `v` with its fraction dropped. */
  predicate Truncates(v: real, n: int) {
    if v >= 0.0 then n as real <= v < (n + 1) as real else (n - 1) as real < v <= n as real
  }

  lemma TruncateDropsFraction(v: real)
    requires -2147483648.0 < v < 2147483647.0
    ensures Truncates(v, Truncate(v))
  {
  }

  predicate OnCircle(x: real, y: real, radius: real) {
    x * x + y * y == radius * radius
  }

  lemma CirclePoint(sign: real, radius: real, c: real, s: real, across: real, up: real)
    requires (sign == 1.0 || sign == -1.0) && OnCircle(c, s, 1.0)
    requires across == sign * (radius * c - radius) && up == radius * s
    ensures OnCircle(across + sign * radius, up, radius)
  {
    assert across + sign * radius == sign * (radius * c);
    assert (sign * (radius * c)) * (sign * (radius * c)) == (radius * c) * (radius * c);
    assert (radius * c) * (radius * c) + (radius * s) * (radius * s) == radius * radius * (c * c + s * s);
  }

  datatype Tick = End | Hidden | Draw(rect: Rect, alpha: real)

  /** The fraction of its life a line has behind it. */
  function StepAt(elapsed: nat): (step: real)
    ensures elapsed < FLOAT_TOTAL_FRAMES ==> 0.0 <= step < 1.0
  {
    elapsed as real / FLOAT_TOTAL_FRAMES as real
  }

  function Part(step: real, distance: real): real {
    step * distance
  }

  /** Cosine and sine at a fraction of the quarter turn an arc sweeps. */
  datatype Quarter = Quarter(cos: real -> real, sin: real -> real)

  class Floating {
    const width: int
    const height: int
    const travelDistance: int
    const arcRadius: real
    const arcSign: real
    const startTicks: int
    const ticksPerFrame: int
    const direction: Direction
    var avoidanceY: int
    var rect: Rect

    constructor (width: int, height: int, floatingDistance: int, arcRadius: real, arcTowardsRight: bool,
                 startTicks: int, ticksPerFrame: int, direction: Direction)
      ensures Valid() && this.direction == direction && avoidanceY == 0 && rect == Rect(0, 0, width, height)
      ensures this.width == width && this.height == height && this.startTicks == startTicks
      ensures travelDistance == (if floatingDistance >= 1 then floatingDistance else 1)
      ensures this.ticksPerFrame == (if ticksPerFrame >= 1 then ticksPerFrame else 1)
      ensures this.arcRadius == arcRadius && arcSign == (if arcTowardsRight then 1.0 else -1.0)
    {
      this.width, this.height := width, height;
      travelDistance := if floatingDistance > 1 then floatingDistance else 1;
      this.arcRadius := arcRadius;
      arcSign := if arcTowardsRight then 1.0 else -1.0;
      this.startTicks := startTicks;
      this.ticksPerFrame := if ticksPerFrame > 1 then ticksPerFrame else 1;
      this.direction := direction;
      avoidanceY := 0;
      rect := Rect(0, 0, width, height);
    }

    predicate Valid() {
      ticksPerFrame >= 1 && travelDistance >= 1 && (arcSign == 1.0 || arcSign == -1.0)
    }

    /** How far a straight line has travelled after `elapsed` frames. */
    function Travelled(elapsed: nat): int {
      Truncate(Part(StepAt(elapsed), travelDistance as real))
    }

    /** How far along its arc a line is from where it started: across, and up. */
    function Swept(step: real, quarter: Quarter): (real, real) {
      (arcSign * (arcRadius * quarter.cos(step) - arcRadius), arcRadius * quarter.sin(step))
    }

    /** Where the line is drawn after `elapsed` frames when nothing displaces it. */
    function Undisplaced(elapsed: nat, ax: int, ay: int, quarter: Quarter): Rect {
      var step := StepAt(elapsed);
      var (dx, dy) := match direction
        case Up => (0, -Travelled(elapsed))
        case Down => (0, Travelled(elapsed))
        case Arc => (Truncate(Swept(step, quarter).0), -Truncate(Swept(step, quarter).1));
      Rect(ax - Halved(width) + dx, ay - height + dy, ax + Halved(width) + dx, ay + dy)
    }

    /**
     * A straight line starts with its lower edge on the anchor, keeps its columns, and over its life
     * travels monotonically one way: after `later` of its 342 frames, that share of its travel distance
     * with the fraction dropped.
     */
    lemma TravelsOneWay(earlier: nat, later: nat, ax: int, ay: int, quarter: Quarter)
      requires Valid() && direction != Arc && earlier <= later < FLOAT_TOTAL_FRAMES
      requires travelDistance < 0x8000_0000
      ensures var first, second := Undisplaced(earlier, ax, ay, quarter), Undisplaced(later, ax, ay, quarter);
        && first.left == second.left && first.right == second.right
        && first.bottom - first.top == second.bottom - second.top == height
        && 0 <= Sign(direction) * (first.bottom - ay) <= Sign(direction) * (second.bottom - ay) <= travelDistance
      ensures Undisplaced(0, ax, ay, quarter).bottom == ay
      ensures var travelled := Sign(direction) * (Undisplaced(later, ax, ay, quarter).bottom - ay);
        342 * travelled <= later * travelDistance < 342 * (travelled + 1)
    {
      TravelledGrows(earlier, later);
      TravelledGrows(0, earlier);
      TravelledExactly(later);
    }

    /** A line is as wide as its text, up to the odd pixel, and a straight one centred on its anchor. */
    lemma StandsOnAnchor(elapsed: nat, ax: int, ay: int, quarter: Quarter)
      ensures var r := Undisplaced(elapsed, ax, ay, quarter);
        && r.bottom - r.top == height
        && (direction != Arc ==> r.left + r.right == 2 * ax)
        && (width >= 0 ==> width - 1 <= r.right - r.left <= width)
        && (width < 0 ==> width <= r.right - r.left <= width + 1)
    {
    }

    lemma TravelledGrows(earlier: nat, later: nat)
      requires Valid() && earlier <= later < FLOAT_TOTAL_FRAMES && travelDistance < 0x8000_0000
      ensures Travelled(0) == 0 <= Travelled(earlier) <= Travelled(later) <= travelDistance
    {
      var a, b, d := StepAt(earlier), StepAt(later), travelDistance as real;
      PartGrows(0.0, a, d);
      PartGrows(a, b, d);
      TruncatedBetween(Part(a, d), Part(b, d), travelDistance);
    }

    lemma PartGrows(a: real, b: real, d: real)
      requires 0.0 <= a <= b <= 1.0 && d >= 0.0
      ensures 0.0 <= Part(a, d) <= Part(b, d) <= d && Part(0.0, d) == 0.0
    {
    }

    lemma TruncatedBetween(x: real, y: real, n: int)
      requires 0.0 <= x <= y <= n as real && n < 0x8000_0000
      ensures 0 <= Truncate(x) <= Truncate(y) <= n
    {
    }

    lemma TravelledExactly(elapsed: nat)
      requires Valid() && elapsed < FLOAT_TOTAL_FRAMES && travelDistance < 0x8000_0000
      ensures 342 * Travelled(elapsed) <= elapsed * travelDistance < 342 * (Travelled(elapsed) + 1)
    {
      var product := elapsed * travelDistance;
      PartIsShare(elapsed, travelDistance);
      TravelledGrows(elapsed, elapsed);
      assert Truncate(product as real / 342.0) == (product as real / 342.0).Floor;
    }

    lemma PartIsShare(elapsed: nat, distance: nat)
      requires elapsed < FLOAT_TOTAL_FRAMES
      ensures Part(StepAt(elapsed), distance as real) == (elapsed * distance) as real / 342.0
    {
      assert (elapsed * distance) as real == elapsed as real * distance as real;
      assert elapsed as real / 342.0 * distance as real == elapsed as real * distance as real / 342.0;
    }

    /**
     * An arc line moves on a circle through its anchor whose centre lies level with it, one radius to
     * the side it sweeps from: the cosine gives how far it is from the centre's column, the sine how high.
     */
    lemma SweepsCircle(step: real, quarter: Quarter)
      requires Valid() && OnCircle(quarter.cos(step), quarter.sin(step), 1.0)
      ensures var (across, up) := Swept(step, quarter);
        && OnCircle(across + arcSign * arcRadius, up, arcRadius)
        && across + arcSign * arcRadius == arcSign * arcRadius * quarter.cos(step)
        && up == arcRadius * quarter.sin(step)
    {
      var (across, up) := Swept(step, quarter);
      CirclePoint(arcSign, arcRadius, quarter.cos(step), quarter.sin(step), across, up);
    }

    /** It is drawn where it has swept to, with the fractions dropped. */
    lemma DrawnWhereSwept(elapsed: nat, ax: int, ay: int, quarter: Quarter)
      requires direction == Arc
      requires var (across, up) := Swept(StepAt(elapsed), quarter);
        -2147483648.0 < across < 2147483647.0 && -2147483648.0 < up < 2147483647.0
      ensures var (across, up) := Swept(StepAt(elapsed), quarter);
        var r := Undisplaced(elapsed, ax, ay, quarter);
        Truncates(across, r.left - (ax - Halved(width))) && Truncates(up, ay - r.bottom)
    {
      var (across, up) := Swept(StepAt(elapsed), quarter);
      TruncateDropsFraction(across);
      TruncateDropsFraction(up);
    }

    /** Advance to `now`: the rect follows the anchor whenever there is one, drawn or not. */
    method Tick(now: int, anchor: Option<(int, int)>, inSight: bool, quarter: Quarter) returns (tick: Tick)
      requires Valid()
      modifies this`rect
      ensures tick.End? <==> now - startTicks >= 342 * ticksPerFrame
      ensures tick.Draw? <==> !tick.End? && anchor.Some? && inSight
      ensures tick.End? || anchor.None? ==> rect == old(rect)
      ensures !tick.End? && anchor.Some? ==>
        rect == Undisplaced(ElapsedFrames(now, startTicks, ticksPerFrame),
                            anchor.value.0, anchor.value.1, quarter).Moved(avoidanceY)
      ensures tick.Draw? ==> tick.rect == rect
      ensures tick.Draw? ==>
        tick.alpha == AlphaAt(ElapsedFrames(now, startTicks, ticksPerFrame))
    {
      var elapsed := ElapsedFrames(now, startTicks, ticksPerFrame);
      LifeInTicks(now, startTicks, ticksPerFrame);
      if elapsed >= FLOAT_TOTAL_FRAMES {
        return End;
      }
      if anchor.None? {
        return Hidden;
      }
      rect := Undisplaced(elapsed, anchor.value.0, anchor.value.1, quarter).Moved(avoidanceY);
      var alpha := 1.0;
      if elapsed > FLOAT_FADE_FRAMES {
        alpha := 1.0 - (elapsed - FLOAT_FADE_FRAMES) as real / (FLOAT_TOTAL_FRAMES - FLOAT_FADE_FRAMES) as real;
        alpha := if alpha > 0.0 then alpha else 0.0;
      }
      tick := if inSight then Draw(rect, alpha) else Hidden;
    }

    method MakeRoom(distance: int)
      modifies this`rect, this`avoidanceY
      ensures avoidanceY == old(avoidanceY) + Sign(direction) * distance
      ensures rect == old(rect).Moved(Sign(direction) * distance)
    {
      var shift := if direction == Down then distance else -distance;
      avoidanceY := avoidanceY + shift;
      rect := rect.(top := rect.top + shift, bottom := rect.bottom + shift);
    }

    /** Rescan and move until nothing is hit: exactly the shortest travel that clears every blocker. */
    method AvoidRects(bounds: Rect, blockers: seq<Rect>) returns (placed: Rect, ghost moved: nat)
      modifies this`rect, this`avoidanceY
      ensures LeastClear(bounds, blockers, direction, moved)
      ensures rect == old(rect).Moved(Sign(direction) * moved) == placed
      ensures avoidanceY == old(avoidanceY) + Sign(direction) * moved
    {
      var at := bounds;
      moved := 0;
      while true
        invariant at == bounds.Moved(Sign(direction) * moved)
        invariant forall e :: 0 <= e < moved ==> !Clear(bounds, blockers, direction, e)
        invariant rect == old(rect).Moved(Sign(direction) * moved)
        invariant avoidanceY == old(avoidanceY) + Sign(direction) * moved
        decreases Ahead(at, blockers, direction)
      {
        var distance := FarthestRoom(at, blockers, direction);
        if distance == 0 {
          return rect, moved;
        }
        var previousTop := rect.top;
        MakeRoom(distance);
        var shift := rect.top - previousTop;
        MovingLeavesFewer(at, blockers, direction, distance);
        ghost var hit :| hit in blockers && at.Intersects(hit) && Room(at, hit, direction) == distance;
        NotYetClear(bounds, blockers, direction, moved, hit, distance);
        at := at.(top := at.top + shift, bottom := at.bottom + shift);
        moved := moved + distance;
      }
    }
  }

  /** A second frame at the same instant, anchor and blockers alike, draws the line where the first one put it. */
  method RedrawIsStable(line: Floating, now: int, anchor: (int, int), quarter: Quarter, pad: Rect, blockers: seq<Rect>)
    returns (first: Rect, second: Rect)
    requires line.Valid() && now - line.startTicks < 342 * line.ticksPerFrame
    modifies line
    ensures first == second
    ensures Clear(first.Padded(pad), blockers, line.direction, 0)
  {
    var drawn := line.Tick(now, Some(anchor), true, quarter);
    ghost var moved, again;
    ghost var start := line.rect;
    first, moved := line.AvoidRects(line.rect.Padded(pad), blockers);
    drawn := line.Tick(now, Some(anchor), true, quarter);
    assert line.rect == start.Moved(Sign(line.direction) * moved);
    assert line.rect.Padded(pad) == start.Padded(pad).Moved(Sign(line.direction) * moved);
    second, again := line.AvoidRects(line.rect.Padded(pad), blockers);
    ClearTextStays(start.Padded(pad), blockers, line.direction, moved, again);
  }
}
