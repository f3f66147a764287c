/** The sprite classes of the game's engine layer: sprites whose rect moves in
    place, the groups they are collected in, the collision-checked movement,
    rotation bookkeeping, the hurt timer of living sprites, particles and the
    small numeric helpers. */
module Entities {
  import opened Geometry
  import opened Collision

  /** A `StaticSprite`/`DynamicSprite`: its rect, its mask and its angle in degrees. */
  class Sprite {
    var rect: Rect
    var mask: Mask
    var angle: real

    /** The mask was made from the sprite's own image. */
    predicate Valid()
      reads this
    {
      Fits(mask, rect.w, rect.h)
    }

    /** What another sprite's collision tests see of this one. */
    function AsBody(): Body
      reads this
    {
      Body(rect, mask)
    }

    /** A sprite built from an image of size `w` by `h` whose mask is `m`. */
    constructor (x: int, y: int, w: nat, h: nat, m: Mask, angle: real)
      requires Fits(m, w, h)
      ensures rect == Rect(x, y, w, h) && mask == m && this.angle == angle
      ensures Valid()
    {
      rect := Rect(x, y, w, h);
      mask := m;
      this.angle := angle;
    }

    /** A sprite built without images: an 8 by 8 rect and nothing opaque. */
    constructor Plain(x: int, y: int)
      ensures rect == Rect(x, y, 8, 8) && mask == {} && angle == 0.0
      ensures Valid()
    {
      rect := Rect(x, y, 8, 8);
      mask := {};
      angle := 0.0;
    }

    /** `check_collisions(offset, index, obstacles)`: move by `offset`, collect
        the obstacles other than this sprite whose rect overlaps the new rect,
        then retreat one pixel at a time along `index` while one of them
        overlaps this sprite at pixel level. Returns whether no retreat step was taken. */
    method CheckCollisions(offset: (int, int), index: Axis, obstacles: seq<Sprite>) returns (unaltered: bool)
      requires Valid() && AllValidSprites(obstacles) && Distinct(obstacles)
      modifies this`rect
      ensures Valid() && AllValid(OthersOf(this, obstacles))
      ensures (rect, unaltered) == Resolve(old(AsBody()), offset, index, OthersOf(this, obstacles))
    {
      ghost var start := AsBody();
      ghost var others := OthersOf(this, obstacles);
      OthersOfValid(this, obstacles);
      rect := rect.Move(offset.0, offset.1);
      var collisions := Overlapping(rect, obstacles);
      ghost var hits := collisions;
      if this in collisions {
        collisions := RemoveFirst(collisions, this);
      }
      assert collisions == Excluding(hits, this);
      CollisionsAreCandidates(rect, obstacles, this);
      // Only this sprite moves while it retreats, so the candidates' bodies are read once.
      var candidates := BodiesOf(collisions);
      assert AsBody() == Destination(start, offset);
      assert candidates == Candidates(rect, others);
      var step := if Component(offset, index) < 0 then 1 else -1;
      ghost var k := Retreats(AsBody(), candidates, index, step);
      unaltered := Retreat(candidates, index, step);
      ResolveAfter(start, offset, index, others, k);
    }

    /** The retreat loop of `check_collisions`: while some candidate overlaps
        this sprite at pixel level, step one pixel along `index`. Returns
        whether no step was taken. */
    method Retreat(candidates: seq<Body>, index: Axis, step: int) returns (unaltered: bool)
      requires Valid() && AllValid(candidates)
      requires step == 1 || step == -1
      modifies this`rect
      ensures Valid()
      ensures var k := Retreats(old(AsBody()), candidates, index, step);
              AsBody() == Retreated(old(AsBody()), index, step, k) && (unaltered <==> k == 0)
      ensures !Blocked(AsBody(), candidates)
    {
      ghost var start := AsBody();
      unaltered := true;
      var current := FirstHit(AsBody(), candidates);
      ghost var k: nat := 0;
      while current.Some?
        invariant Valid()
        invariant AsBody() == Retreated(start, index, step, k)
        invariant Retreats(start, candidates, index, step) == k + Retreats(AsBody(), candidates, index, step)
        invariant unaltered == (k == 0)
        invariant current.Some? <==> Blocked(AsBody(), candidates)
        decreases Retreats(AsBody(), candidates, index, step)
      {
        RetreatsUnfold(AsBody(), candidates, index, step);
        rect := rect.Shift(index, step);
        unaltered := false;
        current := FirstHit(AsBody(), candidates);
        k := k + 1;
      }
      RetreatsZero(AsBody(), candidates, index, step);
    }

    /** The probe of `check_falling(obstacles)`: move one pixel down, look for
        another obstacle overlapping this sprite there at pixel level, and move
        back up. */
    method ProbeBelow(obstacles: seq<Sprite>) returns (supported: bool)
      requires Valid() && AllValidSprites(obstacles) && Distinct(obstacles)
      modifies this`rect
      ensures rect == old(rect)
      ensures AllValid(OthersOf(this, obstacles))
      ensures supported <==> Supported(AsBody(), OthersOf(this, obstacles))
    {
      ghost var start := AsBody();
      ghost var others := OthersOf(this, obstacles);
      OthersOfValid(this, obstacles);
      rect := rect.Move(0, 1);
      var collisions := Overlapping(rect, obstacles);
      ghost var hits := collisions;
      if this in collisions {
        collisions := RemoveFirst(collisions, this);
      }
      assert collisions == Excluding(hits, this);
      CollisionsAreCandidates(rect, obstacles, this);
      var hit := FirstHit(AsBody(), BodiesOf(collisions));
      supported := hit.Some?;
      rect := rect.Move(0, -1);
      assert AsBody() == start;
    }

    /** `move(dx, dy, colliders)`: a collision-checked move along x, then one
        along y, each only when its component is not zero. */
    method Move(dx: int, dy: int, colliders: seq<Sprite>)
      requires Valid() && AllValidSprites(colliders) && Distinct(colliders)
      modifies this`rect
      ensures Valid() && AllValid(OthersOf(this, colliders))
      ensures rect == MoveResolved(old(AsBody()), dx, dy, OthersOf(this, colliders))
    {
      OthersOfValid(this, colliders);
      if dx != 0 {
        var _ := CheckCollisions((dx, 0), X, colliders);
      }
      if dy != 0 {
        var _ := CheckCollisions((0, dy), Y, colliders);
      }
    }

    /** `rotate(angle)` once the image has been rotated: the rotated image has
        size `w` by `h` and mask `newMask`. The rect takes the new size about
        the old centre and the angle is stored modulo 360. */
    method Rotate(newAngle: real, w: nat, h: nat, newMask: Mask)
      requires Fits(newMask, w, h)
      modifies this`rect, this`mask, this`angle
      ensures rect.w == w && rect.h == h
      ensures rect.CenterX() == old(rect.CenterX()) && rect.CenterY() == old(rect.CenterY())
      ensures angle == Mod360(newAngle) && 0.0 <= angle < 360.0
      ensures mask == newMask && Valid()
    {
      var cx, cy := rect.CenterX(), rect.CenterY();
      rect := Recenter(cx, cy, w, h);
      angle := Mod360(newAngle);
      mask := newMask;
    }
  }

  // Groups. A `pygame.sprite.Group` holds each sprite at most once and keeps
  // the order in which sprites were added.

  predicate Distinct(g: seq<Sprite>) {
    forall i, j :: 0 <= i < j < |g| ==> g[i] != g[j]
  }

  predicate AllValidSprites(g: seq<Sprite>)
    reads g
  {
    forall i :: 0 <= i < |g| ==> g[i].Valid()
  }

  /** `spritecollide(sprite, group, False)` for a sprite with rect `r`: the
      members, in order, whose rect overlaps `r`. */
  function Overlapping(r: Rect, g: seq<Sprite>): (cs: seq<Sprite>)
    reads g
    ensures forall i :: 0 <= i < |cs| ==> cs[i] in g && r.Collides(cs[i].rect)
    ensures forall i :: 0 <= i < |g| && r.Collides(g[i].rect) ==> g[i] in cs
    ensures |cs| <= |g|
  {
    if g == [] then []
    else (if r.Collides(g[0].rect) then [g[0]] else []) + Overlapping(r, g[1..])
  }

  /** `spritecollide` on a concatenation is the concatenation of the two
      results, so the members keep the group's order. */
  lemma {:induction false} OverlappingAppend(r: Rect, l: seq<Sprite>, t: seq<Sprite>)
    ensures Overlapping(r, l + t) == Overlapping(r, l) + Overlapping(r, t)
  {
    if l == [] {
      assert l + t == t;
    } else {
      assert (l + t)[1..] == l[1..] + t;
      OverlappingAppend(r, l[1..], t);
    }
  }

  /** Each member occurs in the result as often as in the group when its rect
      overlaps `r`, and not at all otherwise. */
  lemma {:induction false} OverlappingCounts(r: Rect, g: seq<Sprite>)
    ensures forall s: Sprite :: multiset(Overlapping(r, g))[s] ==
                        if r.Collides(s.rect) then multiset(g)[s] else 0
  {
    if g != [] {
      OverlappingCounts(r, g[1..]);
      assert g == [g[0]] + g[1..];
    }
  }

  /** `list.remove(s)`: drop the first occurrence of `s`. */
  function RemoveFirst<T(==)>(g: seq<T>, s: T): (r: seq<T>)
    requires s in g
    ensures |r| == |g| - 1
    ensures multiset(r) == multiset(g) - multiset{s}
  {
    assert g == [g[0]] + g[1..];
    assert multiset(g) == multiset{g[0]} + multiset(g[1..]);
    if g[0] == s then g[1..]
    else [g[0]] + RemoveFirst(g[1..], s)
  }

  /** The occurrence removed is the first one, at position `i`, and the others
      keep their order. */
  lemma {:induction false} RemoveFirstKeepsOrder<T>(g: seq<T>, s: T, i: nat)
    requires i < |g| && g[i] == s && s !in g[..i]
    ensures RemoveFirst(g, s) == g[..i] + g[i + 1..]
  {
    if i == 0 {
      assert g[..0] + g[1..] == g[1..];
    } else {
      var t := g[1..];
      assert g[0] == g[..i][0];
      assert t[..i - 1] == g[1..i];
      RemoveFirstKeepsOrder(t, s, i - 1);
      assert g[..i] == [g[0]] + t[..i - 1];
      assert g[i + 1..] == t[i..];
    }
  }

  /** The bodies of a list of sprites. */
  function BodiesOf(g: seq<Sprite>): (bs: seq<Body>)
    reads g
    ensures |bs| == |g|
  {
    if g == [] then [] else [g[0].AsBody()] + BodiesOf(g[1..])
  }

  /** The bodies of the members of `g` other than `s`, in order. */
  function OthersOf(s: Sprite, g: seq<Sprite>): (bs: seq<Body>)
    reads set o | o in g && o != s
    ensures |bs| <= |g|
  {
    if g == [] then []
    else (if g[0] == s then [] else [g[0].AsBody()]) + OthersOf(s, g[1..])
  }

  lemma {:induction false} OthersOfValid(s: Sprite, g: seq<Sprite>)
    requires AllValidSprites(g)
    ensures AllValid(OthersOf(s, g))
  {
    if g != [] {
      OthersOfValid(s, g[1..]);
    }
  }

  /** `if s in c: c.remove(s)`. */
  function Excluding(c: seq<Sprite>, s: Sprite): (r: seq<Sprite>)
    ensures s in c ==> |r| == |c| - 1 && multiset(r) == multiset(c) - multiset{s}
    ensures s !in c ==> r == c
  {
    if s in c then RemoveFirst(c, s) else c
  }

  /** The members of `g` other than `s`, in order. */
  function Without(g: seq<Sprite>, s: Sprite): (r: seq<Sprite>)
    ensures forall i :: 0 <= i < |r| ==> r[i] in g && r[i] != s
  {
    if g == [] then []
    else (if g[0] == s then [] else [g[0]]) + Without(g[1..], s)
  }

  lemma {:induction false} WithoutAbsent(g: seq<Sprite>, s: Sprite)
    requires s !in g
    ensures Without(g, s) == g
  {
    if g != [] {
      WithoutAbsent(g[1..], s);
      assert g == [g[0]] + g[1..];
    }
  }

  lemma {:induction false} BodiesOfAppend(l: seq<Sprite>, r: seq<Sprite>)
    ensures BodiesOf(l + r) == BodiesOf(l) + BodiesOf(r)
  {
    if l == [] {
      assert l + r == r;
    } else {
      assert (l + r)[0] == l[0] && (l + r)[1..] == l[1..] + r;
      BodiesOfAppend(l[1..], r);
    }
  }

  /** Filtering sprites by rect and then taking their bodies is filtering
      their bodies by rect. */
  lemma {:induction false} BodiesOfOverlapping(r: Rect, g: seq<Sprite>)
    ensures BodiesOf(Overlapping(r, g)) == Candidates(r, BodiesOf(g))
  {
    if g != [] {
      BodiesOfOverlapping(r, g[1..]);
      var pre := if r.Collides(g[0].rect) then [g[0]] else [];
      BodiesOfAppend(pre, Overlapping(r, g[1..]));
      assert BodiesOf(g)[0] == g[0].AsBody() && BodiesOf(g)[1..] == BodiesOf(g[1..]);
      assert BodiesOf(pre) == if r.Collides(g[0].rect) then [g[0].AsBody()] else [];
    }
  }

  lemma {:induction false} BodiesOfWithout(g: seq<Sprite>, s: Sprite)
    ensures BodiesOf(Without(g, s)) == OthersOf(s, g)
  {
    if g != [] {
      BodiesOfWithout(g[1..], s);
      var pre := if g[0] == s then [] else [g[0]];
      BodiesOfAppend(pre, Without(g[1..], s));
    }
  }

  lemma {:induction false} OverlappingAbsent(r: Rect, g: seq<Sprite>, s: Sprite)
    requires s !in g
    ensures s !in Overlapping(r, g)
  {
    var c := Overlapping(r, g);
    forall i | 0 <= i < |c| ensures c[i] != s {
      assert c[i] in g;
    }
  }

  lemma RemoveFirstCons(x: Sprite, t: seq<Sprite>, s: Sprite)
    requires x != s && s in t
    ensures RemoveFirst([x] + t, s) == [x] + RemoveFirst(t, s)
  {
    assert ([x] + t)[0] == x && ([x] + t)[1..] == t;
  }

  lemma {:induction false} ExcludingOverlappingHead(r: Rect, g: seq<Sprite>, s: Sprite)
    requires Distinct(g) && g != [] && g[0] == s
    ensures Excluding(Overlapping(r, g), s) == Overlapping(r, Without(g, s))
  {
    var t := g[1..];
    assert s !in t by {
      forall i | 0 <= i < |t| ensures t[i] != s {
        assert t[i] == g[i + 1];
      }
    }
    OverlappingAbsent(r, t, s);
    WithoutAbsent(t, s);
    assert Without(g, s) == t;
    var rest := Overlapping(r, t);
    if r.Collides(s.rect) {
      assert Overlapping(r, g) == [s] + rest;
      assert ([s] + rest)[0] == s && ([s] + rest)[1..] == rest;
      assert s in [s] + rest;
      assert RemoveFirst([s] + rest, s) == rest;
    } else {
      assert Overlapping(r, g) == rest;
    }
  }

  lemma {:induction false} ExcludingOverlappingTail(r: Rect, g: seq<Sprite>, s: Sprite)
    requires g != [] && g[0] != s
    requires Excluding(Overlapping(r, g[1..]), s) == Overlapping(r, Without(g[1..], s))
    ensures Excluding(Overlapping(r, g), s) == Overlapping(r, Without(g, s))
  {
    var t := g[1..];
    var rest := Overlapping(r, t);
    var w := Without(t, s);
    assert Without(g, s) == [g[0]] + w;
    assert ([g[0]] + w)[0] == g[0] && ([g[0]] + w)[1..] == w;
    if r.Collides(g[0].rect) {
      assert Overlapping(r, g) == [g[0]] + rest;
      assert Overlapping(r, Without(g, s)) == [g[0]] + Overlapping(r, w);
      if s in rest {
        RemoveFirstCons(g[0], rest, s);
      }
    } else {
      assert Overlapping(r, g) == rest;
      assert Overlapping(r, Without(g, s)) == Overlapping(r, w);
    }
  }

  /** Removing the sprite itself from the rect hits of a group is taking the
      rect hits among the other members. */
  lemma {:induction false} ExcludingOverlapping(r: Rect, g: seq<Sprite>, s: Sprite)
    requires Distinct(g)
    ensures Excluding(Overlapping(r, g), s) == Overlapping(r, Without(g, s))
  {
    if g != [] {
      if g[0] == s {
        ExcludingOverlappingHead(r, g, s);
      } else {
        assert Distinct(g[1..]);
        ExcludingOverlapping(r, g[1..], s);
        ExcludingOverlappingTail(r, g, s);
      }
    }
  }

  /** The list `check_collisions` tests against, once the sprite `s` itself is
      removed from it, holds exactly the bodies `Candidates` selects among the
      other members of the group, and never `s`. */
  lemma CollisionsAreCandidates(r: Rect, g: seq<Sprite>, s: Sprite)
    requires Distinct(g)
    ensures s !in Excluding(Overlapping(r, g), s)
    ensures BodiesOf(Excluding(Overlapping(r, g), s)) == Candidates(r, OthersOf(s, g))
  {
    ExcludingOverlapping(r, g, s);
    var w := Without(g, s);
    assert s !in w;
    OverlappingAbsent(r, w, s);
    BodiesOfOverlapping(r, w);
    BodiesOfWithout(g, s);
  }

  // Numeric helpers.

  /** `clamp(n, minimum, maximum)`, that is `max(minimum, min(n, maximum))`. */
  function Clamp(n: int, minimum: int, maximum: int): (r: int)
    ensures minimum <= maximum ==> minimum <= r <= maximum
    ensures minimum <= n <= maximum ==> r == n
    ensures n < minimum ==> r == minimum
    ensures minimum <= maximum < n ==> r == maximum
    ensures maximum < minimum ==> r == minimum
  {
    var low := if n < maximum then n else maximum;
    if minimum > low then minimum else low
  }

  /** `angle % 360` on a float: Python's floored remainder. */
  function Mod360(a: real): (r: real)
    ensures 0.0 <= r < 360.0
    ensures 0.0 <= a < 360.0 ==> r == a
  {
    a - 360.0 * ((a / 360.0).Floor as real)
  }

  /** Adding a whole turn does not change the stored angle. */
  lemma Mod360Turn(a: real)
    ensures Mod360(a + 360.0) == Mod360(a)
  {
    var f := (a / 360.0).Floor;
    assert (a + 360.0) / 360.0 == a / 360.0 + 1.0;
    assert ((a + 360.0) / 360.0).Floor == f + 1;
  }

  lemma Mod360Idempotent(a: real)
    ensures Mod360(Mod360(a)) == Mod360(a)
  {
  }

  /** `linear_conversion(old_value, old_range, new_range)`: the value keeps its
      relative position, that is its distance from the start of the range in
      proportion to the range's length. An empty old range divides by zero,
      which the model reports as `None`. */
  function LinearConversion(oldValue: real, oldRange: (real, real), newRange: (real, real)): (r: Option<real>)
    ensures r.None? <==> oldRange.0 == oldRange.1
    ensures r.Some? ==>
              (r.value - newRange.0) * (oldRange.1 - oldRange.0) == (oldValue - oldRange.0) * (newRange.1 - newRange.0)
  {
    if oldRange.0 == oldRange.1 then None
    else Some(((oldValue - oldRange.0) * (newRange.1 - newRange.0)) / (oldRange.1 - oldRange.0) + newRange.0)
  }

  lemma Cancel(x: real, y: real, d: real)
    requires d != 0.0 && x * d == y * d
    ensures x == y
  {
    assert (x - y) * d == 0.0;
  }

  /** The ends of the old range go to the ends of the new one. */
  lemma LinearConversionEnds(oldRange: (real, real), newRange: (real, real))
    requires oldRange.0 != oldRange.1
    ensures LinearConversion(oldRange.0, oldRange, newRange) == Some(newRange.0)
    ensures LinearConversion(oldRange.1, oldRange, newRange) == Some(newRange.1)
  {
    var d := oldRange.1 - oldRange.0;
    Cancel(LinearConversion(oldRange.0, oldRange, newRange).value - newRange.0, 0.0, d);
    Cancel(LinearConversion(oldRange.1, oldRange, newRange).value - newRange.0, newRange.1 - newRange.0, d);
  }

  /** Converting back with the ranges swapped gives the value we started from. */
  lemma LinearConversionInverse(v: real, oldRange: (real, real), newRange: (real, real))
    requires oldRange.0 != oldRange.1 && newRange.0 != newRange.1
    ensures LinearConversion(v, oldRange, newRange).Some?
    ensures LinearConversion(LinearConversion(v, oldRange, newRange).value, newRange, oldRange) == Some(v)
  {
    var u := LinearConversion(v, oldRange, newRange).value;
    var t := LinearConversion(u, newRange, oldRange).value;
    assert (t - oldRange.0) * (newRange.1 - newRange.0) == (v - oldRange.0) * (newRange.1 - newRange.0);
    Cancel(t - oldRange.0, v - oldRange.0, newRange.1 - newRange.0);
  }

  /** `off_surface(surface)` for a surface of size `width` by `height`. */
  predicate OffSurface(r: Rect, width: int, height: int): (off: bool)
    ensures off ==> forall px, py :: r.ContainsPoint(px, py) ==> !(0 <= px < width && 0 <= py < height)
  {
    r.Right() < 0 || r.x > width || r.Bottom() < 0 || r.y > height
  }

  /** A rect reported off the surface shows none of its pixels on it. */
  lemma OffSurfaceHidden(r: Rect, width: int, height: int, px: int, py: int)
    requires OffSurface(r, width, height)
    requires r.ContainsPoint(px, py)
    ensures !(0 <= px < width && 0 <= py < height)
  {
  }

  /** The test is not the converse: a rect whose right edge is at 0 shows
      nothing, yet is not reported off the surface. */
  lemma OffSurfaceBoundary()
    ensures !OffSurface(Rect(-8, 0, 8, 8), 100, 100)
    ensures forall px, py :: Rect(-8, 0, 8, 8).ContainsPoint(px, py) ==> px < 0
  {
  }

  // The hurt timer of a `LivingSprite`.

  datatype HurtState = HurtState(hurt: bool, time: int)

  /** One `update` of the hurt timer: count down while hurt and time is left,
      then clear the hurt flag and restart the count at `base`. */
  function HurtTick(s: HurtState, base: int): (r: HurtState)
    ensures !s.hurt ==> r == s
    ensures s.hurt && 0 <= s.time ==>
              (r.hurt && 0 <= r.time == s.time - 1) || (!r.hurt && s.time == 0 && r.time == base)
  {
    if s.hurt && s.time > 0 then HurtState(true, s.time - 1)
    else if s.hurt then HurtState(false, base)
    else s
  }

  function HurtTicks(s: HurtState, base: int, n: nat): HurtState
    decreases n
  {
    if n == 0 then s else HurtTicks(HurtTick(s, base), base, n - 1)
  }

  /** After a hit with `t` ticks left, the sprite stays hurt for `t` updates
      and recovers, with the count reset, on the next. */
  lemma {:induction false} HurtRecovery(t: nat, base: int)
    ensures HurtTicks(HurtState(true, t), base, t) == HurtState(true, 0)
    ensures HurtTicks(HurtState(true, t), base, t + 1) == HurtState(false, base)
  {
    if t > 0 {
      HurtRecovery(t - 1, base);
      assert HurtTick(HurtState(true, t), base) == HurtState(true, t - 1);
    }
  }

  /** A `LivingSprite`'s counters. The sprite's own images and the particles it
      sheds are outside this class; the number of particles still alive is
      given to `Update`. */
  class Living {
    var health: int
    var hurt: bool
    var hurtTime: int
    const baseHurtTime: int
    const runParticles: bool
    var killed: bool

    function Hurt(): HurtState
      reads this
    {
      HurtState(hurt, hurtTime)
    }

    constructor (runParticles: bool)
      ensures health == 1 && !hurt && baseHurtTime == 20 && hurtTime == 20
      ensures this.runParticles == runParticles && !killed
    {
      health := 1;
      hurt := false;
      baseHurtTime := 20;
      hurtTime := 20;
      this.runParticles := runParticles;
      killed := false;
    }

    /** `damage(value, *groups)`: lower health and mark as hurt; the count
        already running is not restarted. Returns whether the sprite is
        removed from the groups given (health exhausted). */
    method Damage(value: int) returns (removed: bool)
      modifies this`health, this`hurt
      ensures health == old(health) - value && hurt && hurtTime == old(hurtTime)
      ensures removed <==> health <= 0
    {
      health := health - value;
      hurt := true;
      removed := health <= 0;
    }

    /** `update(...)`: one hurt-timer tick, then the sprite is killed once its
        health is exhausted and (when it sheds particles) no particle is left. */
    method Update(particlesLeft: nat)
      modifies this`hurt, this`hurtTime, this`killed
      ensures Hurt() == HurtTick(old(Hurt()), baseHurtTime)
      ensures killed <==> old(killed) || (health <= 0 && (!runParticles || particlesLeft == 0))
    {
      if hurt && hurtTime > 0 {
        hurtTime := hurtTime - 1;
      } else if hurt {
        hurt := false;
        hurtTime := baseHurtTime;
      }
      if runParticles {
        if health <= 0 && particlesLeft == 0 {
          killed := true;
        }
      } else if health <= 0 {
        killed := true;
      }
    }
  }

  // Particles.

  /** One `Particle.update` of the lifetime counter: count down while positive,
      otherwise kill. */
  function ParticleTick(duration: int, killed: bool): (r: (int, bool))
    ensures r.1 <==> killed || duration <= 0
    ensures 0 <= duration ==> 0 <= r.0 <= duration
    ensures 0 < duration ==> r.0 == duration - 1
  {
    if duration > 0 then (duration - 1, killed) else (duration, true)
  }

  function ParticleTicks(duration: int, killed: bool, n: nat): (int, bool)
    decreases n
  {
    if n == 0 then (duration, killed)
    else
      var next := ParticleTick(duration, killed);
      ParticleTicks(next.0, next.1, n - 1)
  }

  /** A particle of duration `d` lives through `d` updates and is killed by the next. */
  lemma {:induction false} ParticleLifetime(d: nat)
    ensures ParticleTicks(d, false, d) == (0, false)
    ensures ParticleTicks(d, false, d + 1) == (0, true)
  {
    if d > 0 {
      ParticleLifetime(d - 1);
    }
  }

  /** A particle has no opaque pixel, so its moves are never retreated. */
  lemma ParticleMovesFreely(r: Rect, dx: int, dy: int, others: seq<Body>)
    requires AllValid(others)
    ensures MoveResolved(Body(r, {}), dx, dy, others) == r.Move(dx, dy)
  {
    var b := Body(r, {});
    var r1 := if dx != 0 then Resolve(b, (dx, 0), X, others).0 else r;
    if dx != 0 {
      ResolveFree(b, (dx, 0), X, others);
    }
    if dy != 0 {
      ResolveFree(Body(r1, {}), (0, dy), Y, others);
    }
  }

  /** A particle: an image-less sprite with a lifetime and the random moves it
      has left, drawn in advance. */
  class Particle {
    const sprite: Sprite
    var duration: int
    var moves: seq<(int, int)>
    var killed: bool

    constructor (x: int, y: int, duration: int, moves: seq<(int, int)>)
      ensures fresh(sprite) && sprite.rect == Rect(x, y, 8, 8) && sprite.mask == {} && sprite.Valid()
      ensures this.duration == duration && this.moves == moves && !killed
    {
      sprite := new Sprite.Plain(x, y);
      this.duration := duration;
      this.moves := moves;
      killed := false;
    }

    /** `Particle.update(colliders, ...)`: while the lifetime lasts, make the
        next random move (if any is left) and count down; then kill. */
    method Update(colliders: seq<Sprite>)
      requires sprite.Valid() && AllValidSprites(colliders) && Distinct(colliders)
      modifies this`duration, this`moves, this`killed, sprite`rect
      ensures (duration, killed) == ParticleTick(old(duration), old(killed))
      ensures sprite.Valid() && AllValid(OthersOf(sprite, colliders))
      ensures moves == if old(duration) > 0 && old(moves) != [] then old(moves)[1..] else old(moves)
      ensures sprite.rect == if old(duration) > 0 && old(moves) != []
                             then MoveResolved(old(sprite.AsBody()), old(moves)[0].0, old(moves)[0].1, OthersOf(sprite, colliders))
                             else old(sprite.rect)
    {
      OthersOfValid(sprite, colliders);
      if duration > 0 {
        duration := duration - 1;
        if moves != [] {
          var next := moves[0];
          moves := moves[1..];
          sprite.Move(next.0, next.1, colliders);
        }
      } else {
        killed := true;
      }
    }
  }

  // `Player.shake_screen`.

  /** The values `for x in range(lo, hi): yield (x * s, x * s)` produces. */
  function Diagonal(lo: int, hi: int, s: int): (r: seq<(int, int)>)
    ensures |r| == if lo < hi then hi - lo else 0
    ensures forall i :: 0 <= i < |r| ==> r[i] == ((lo + i) * s, (lo + i) * s)
    decreases hi - lo
  {
    if lo >= hi then [] else [(lo * s, lo * s)] + Diagonal(lo + 1, hi, s)
  }

  method DiagonalRun(lo: int, hi: int, s: int) returns (out: seq<(int, int)>)
    ensures out == Diagonal(lo, hi, s)
  {
    out := [];
    var x := lo;
    while x < hi
      invariant x == lo || lo < x <= hi
      invariant |out| == x - lo
      invariant forall i :: 0 <= i < |out| ==> out[i] == ((lo + i) * s, (lo + i) * s)
      decreases hi - x
    {
      out := out + [(x * s, x * s)];
      x := x + 1;
    }
  }

  /** The screen-shake offsets: three rounds of `range(0, 2)` (and of the empty
      `range(2, 0)`), flipping the sign each round. */
  method ShakeScreen() returns (offsets: seq<(int, int)>)
    ensures offsets == [(0, 0), (-1, -1), (0, 0), (1, 1), (0, 0), (-1, -1)]
  {
    offsets := [];
    var s := -1;
    for round := 0 to 3
      invariant s == if round % 2 == 0 then -1 else 1
      invariant |offsets| == 2 * round
      invariant forall i :: 0 <= i < |offsets| ==>
                  offsets[i] == if i % 2 == 0 then (0, 0) else if (i / 2) % 2 == 0 then (-1, -1) else (1, 1)
    {
      var up := DiagonalRun(0, 2, s);
      var down := DiagonalRun(2, 0, s);
      offsets := offsets + up + down;
      s := s * -1;
    }
  }
}
