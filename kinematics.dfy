/** Star kinematics of the shooting-stars panel: everything the paint pass
    derives from a star's colour, its age and the canvas size. All of it is
    exact integer arithmetic; the one floating-point step (the entropy
    ratio) is replaced by an integer stand-in, `Entropy`. `Spawn` and
    `PositionAt`, and the lemmas about them, take the entropy as an input
    and hold for any value of it; the members written in terms of a star
    and a canvas (`StarPosition` onwards) use the stand-in. */
module Kinematics {

  /** One 8-bit colour channel. */
  type Channel = c: int | 0 <= c <= 255

  datatype Color = Color(red: Channel, green: Channel, blue: Channel)

  /** A star: its fixed colour and the number of paint passes it has lived
      through (the `AtomicInteger` paired with the colour). */
  datatype Star = Star(color: Color, age: nat)

  datatype Point = Point(x: int, y: int)

  /** A filled square of the trail: top-left corner and side length. */
  datatype Square = Square(x: int, y: int, side: int)

  /** Side length of the star's head square: (blue + green) / 128 + 1. */
  function Size(c: Color): (r: int)
    ensures 1 <= r <= 4
    ensures r == 1 <==> c.blue + c.green < 128
    ensures r == 4 <==> c.blue + c.green >= 384
  {
    (c.blue + c.green) / 128 + 1
  }

  /** Diagonal step per paint pass: (4 red + 2 green + blue) / 256 + 1. */
  function Speed(c: Color): (r: int)
    ensures 1 <= r <= 7
    ensures r == 1 <==> 4 * c.red + 2 * c.green + c.blue < 256
    ensures r == 7 <==> 4 * c.red + 2 * c.green + c.blue >= 1536
  {
    (c.red * 4 + c.green * 2 + c.blue) / 256 + 1
  }

  /** INTEGER STAND-IN for the entropy, which the panel computes in single
      precision floating point (channel sum times (w + h) / 765, rounded to
      the nearest integer). Here it is the exact rational value rounded half
      up, so it can differ from the float result only where that result lies
      within float error of a half. */
  function Entropy(c: Color, w: nat, h: nat): (e: nat)
    ensures e <= w + h
  {
    RoundedRatio(c.red + c.green + c.blue, w + h)
  }

  /** sum * hw / 765 rounded half up, for a channel sum of at most 765. */
  function RoundedRatio(sum: nat, hw: nat): (e: nat)
    requires sum <= 765
    ensures e <= hw
  {
    var prod := sum * hw;
    assert prod <= 765 * hw by { MulMono(sum, 765, hw); }
    (2 * prod + 765) / 1530
  }

  /** The stand-in is the nearest integer to (r + g + b) * (w + h) / 765,
      halves rounded up: |765 e - (r + g + b) (w + h)| <= 765 / 2. */
  lemma EntropyRounds(c: Color, w: nat, h: nat)
    ensures var e, exact := Entropy(c, w, h), (c.red + c.green + c.blue) * (w + h);
      1530 * e <= 2 * exact + 765 < 1530 * e + 1530
  {
  }

  lemma MulMono(a: nat, b: nat, k: nat)
    requires a <= b
    ensures a * k <= b * k
  {
    assert b * k == a * k + (b - a) * k;
  }

  /** Spawn point: an entropy below the height picks the point that far up
      the left edge, measured from the bottom-left corner; otherwise the point
      `entropy - h` along the top edge. */
  function Spawn(entropy: nat, h: nat): (p: Point)
    ensures entropy < h ==> p.x == 0 && 0 < p.y <= h
    ensures entropy >= h ==> p.y == 0 && p.x >= 0
    // the spawn point lies on the left-then-top edge path, `entropy` steps from (0, h)
    ensures p.x + (h - p.y) == entropy
    ensures 0 <= p.x && 0 <= p.y <= h
  {
    if entropy < h then Point(0, h - entropy) else Point(entropy - h, 0)
  }

  /** Position after `n` paint passes: the spawn point moved `n * speed` on
      both axes. */
  function PositionAt(c: Color, entropy: nat, h: nat, n: nat): (p: Point)
    ensures p.x - p.y == Spawn(entropy, h).x - Spawn(entropy, h).y
    ensures p.x >= Spawn(entropy, h).x + n && p.y >= Spawn(entropy, h).y + n
  {
    var s := Spawn(entropy, h);
    var v := Speed(c);
    assert n * v >= n by { MulAtLeast(n, v); }
    Point(s.x + n * v, s.y + n * v)
  }

  /** Where the paint pass on a `w` by `h` canvas places the star. */
  function StarPosition(s: Star, w: nat, h: nat): (p: Point)
  {
    PositionAt(s.color, Entropy(s.color, w, h), h, s.age)
  }

  /** A star on a `w` by `h` canvas moves on the diagonal x - y == entropy - h
      and is at least as far from the top-left corner as its age, on both
      axes. */
  lemma StarPositionDiagonal(s: Star, w: nat, h: nat)
    ensures StarPosition(s, w, h).x - StarPosition(s, w, h).y == Entropy(s.color, w, h) - h
    ensures StarPosition(s, w, h).x >= s.age && StarPosition(s, w, h).y >= s.age
  {
  }

  /** The removal test of the paint pass. */
  predicate OffCanvas(p: Point, w: nat, h: nat)
  {
    p.x > w || p.y > h
  }

  predicate Visible(s: Star, w: nat, h: nat)
  {
    !OffCanvas(StarPosition(s, w, h), w, h)
  }

  lemma MulAtLeast(n: nat, v: int)
    requires v >= 1
    ensures n * v >= n
  {
    assert n * v == n + n * (v - 1);
  }

  lemma {:induction false} MulStrict(n: nat, m: nat, v: int)
    requires n < m && v >= 1
    ensures n * v < m * v
  {
    assert m * v - n * v == (m - n) * v;
    MulAtLeast(m - n, v);
  }

  /** The difference x - y does not change over a star's life: it moves on
      a diagonal. */
  lemma DiagonalMotion(c: Color, entropy: nat, h: nat, n: nat, m: nat)
    ensures PositionAt(c, entropy, h, n).x - PositionAt(c, entropy, h, n).y
         == PositionAt(c, entropy, h, m).x - PositionAt(c, entropy, h, m).y
  {
  }

  /** Both coordinates strictly increase with age, because the speed is at
      least 1. */
  lemma StrictlyIncreasing(c: Color, entropy: nat, h: nat, n: nat, m: nat)
    requires n < m
    ensures PositionAt(c, entropy, h, n).x < PositionAt(c, entropy, h, m).x
    ensures PositionAt(c, entropy, h, n).y < PositionAt(c, entropy, h, m).y
  {
    MulStrict(n, m, Speed(c));
  }

  /** Once off the canvas, a star is off it at every later age: the removal
      can never have been premature. */
  lemma OffCanvasPersists(s: Star, w: nat, h: nat, later: nat)
    requires OffCanvas(StarPosition(s, w, h), w, h)
    requires s.age <= later
    ensures OffCanvas(StarPosition(s.(age := later), w, h), w, h)
  {
    if s.age < later {
      StrictlyIncreasing(s.color, Entropy(s.color, w, h), h, s.age, later);
    }
  }

  /** A star of age 0 is on the canvas: the spawn point is never outside it. */
  lemma SpawnOnCanvas(c: Color, w: nat, h: nat)
    ensures Visible(Star(c, 0), w, h)
  {
    var e := Entropy(c, w, h);
    assert PositionAt(c, e, h, 0) == Spawn(e, h);
  }

  /** A star still on the canvas is at most min(w, h) passes old, so its
      lifetime is bounded by the canvas size. */
  lemma VisibleAgeBound(s: Star, w: nat, h: nat)
    requires Visible(s, w, h)
    ensures s.age <= w && s.age <= h
  {
  }

  /** The next position the paint pass computes for a star still on the
      canvas is at most one maximal step (7) beyond it on each axis. */
  lemma NextPositionBound(s: Star, w: nat, h: nat)
    requires Visible(s, w, h)
    ensures StarPosition(s.(age := s.age + 1), w, h).x <= w + 7
    ensures StarPosition(s.(age := s.age + 1), w, h).y <= h + 7
  {
    PositionAtNext(s.color, Entropy(s.color, w, h), h, s.age);
  }

  lemma PositionAtNext(c: Color, entropy: nat, h: nat, n: nat)
    ensures PositionAt(c, entropy, h, n + 1).x == PositionAt(c, entropy, h, n).x + Speed(c)
    ensures PositionAt(c, entropy, h, n + 1).y == PositionAt(c, entropy, h, n).y + Speed(c)
  {
    var v := Speed(c);
    assert (n + 1) * v == n * v + v;
  }

  /** Square i of a trail with head at `head`: it stays on the head's
      diagonal. */
  function TrailSquare(head: Point, size: int, speed: int, i: nat): (q: Square)
    ensures q.x - q.y == head.x - head.y
    ensures q.side == size - i / 2
  {
    Square(head.x - i * speed, head.y - i * speed, size - i / 2)
  }

  /** The receding trail of 2 * size squares, as drawn by the paint pass. */
  function Trail(head: Point, size: int, speed: int): (t: seq<Square>)
    requires size >= 1
    ensures |t| == 2 * size
    ensures t[0] == Square(head.x, head.y, size)
    ensures forall i :: 0 <= i < |t| ==> t[i].side >= 1
    ensures t[|t| - 1].side == 1
  {
    seq(2 * size, i requires 0 <= i => TrailSquare(head, size, speed, i))
  }

  /** Each square of the trail sits one speed step further back on both
      axes than the one before it, and is no larger. */
  lemma TrailRecedes(head: Point, size: int, speed: int, i: nat)
    requires size >= 1 && i + 1 < 2 * size
    ensures Trail(head, size, speed)[i + 1].x == Trail(head, size, speed)[i].x - speed
    ensures Trail(head, size, speed)[i + 1].y == Trail(head, size, speed)[i].y - speed
    ensures Trail(head, size, speed)[i + 1].side <= Trail(head, size, speed)[i].side
  {
    var t := Trail(head, size, speed);
    assert t[i] == TrailSquare(head, size, speed, i);
    assert t[i + 1] == TrailSquare(head, size, speed, i + 1);
    assert (i + 1) * speed == i * speed + speed;
  }

  /** The trail of a star as the paint pass draws it. */
  function StarTrail(s: Star, w: nat, h: nat): (t: seq<Square>)
    ensures |t| == 2 * Size(s.color)
  {
    Trail(StarPosition(s, w, h), Size(s.color), Speed(s.color))
  }

  /** The drawing loop over the trail: `take(size * 2).forEachIndexed`,
      recording each `fillRect` in order. */
  method DrawTrail(head: Point, size: int, speed: int) returns (drawn: seq<Square>)
    requires size >= 1
    ensures drawn == Trail(head, size, speed)
  {
    drawn := [];
    var i := 0;
    while i < size * 2
      invariant 0 <= i <= 2 * size
      invariant drawn == Trail(head, size, speed)[..i]
    {
      drawn := drawn + [Square(head.x - i * speed, head.y - i * speed, size - i / 2)];
      i := i + 1;
    }
  }

  /** The body of the paint loop for one already aged star: compute its
      position, test it against the canvas and, if it stays, draw its
      trail. */
  method VisitStar(s: Star, w: nat, h: nat) returns (stays: bool, drawn: seq<Square>)
    ensures stays <==> Visible(s, w, h)
    ensures stays ==> drawn == StarTrail(s, w, h)
    ensures !stays ==> drawn == []
  {
    var entropy := Entropy(s.color, w, h);
    var spawn := Spawn(entropy, h);
    var size := Size(s.color);
    var speed := Speed(s.color);
    var cur := Point(spawn.x + s.age * speed, spawn.y + s.age * speed);
    if cur.x > w || cur.y > h {
      stays, drawn := false, [];
    } else {
      stays := true;
      drawn := DrawTrail(cur, size, speed);
    }
  }

  /** The two worked examples: a pure red star on a 1280 by 720 canvas and
      a pure green star. */
  lemma RedStarExample()
    ensures Entropy(Color(255, 0, 0), 1280, 720) == 667
    ensures Spawn(667, 720) == Point(0, 53)
    ensures Speed(Color(255, 0, 0)) == 4
    ensures StarPosition(Star(Color(255, 0, 0), 10), 1280, 720) == Point(40, 93)
  {
  }

  lemma GreenStarExample()
    ensures Size(Color(0, 255, 0)) == 2 && Speed(Color(0, 255, 0)) == 2
  {
  }
}
