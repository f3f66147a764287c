/** The game layer: the countdown timer, the boxes the player carries into the
    truck, the truck's trailer area, the score and the final grade. The mouse
    position, the clock and the milliseconds elapsed per frame are parameters;
    fonts, sounds and drawing are not modelled. */
module Game {
  import opened Geometry
  import opened Collision
  import opened Entities
  import opened Physics

  // ---------------------------------------------------------------- Timer

  /** The time left after one frame of `milliseconds`: never below zero. */
  function TimerTick(time: real, milliseconds: int): (r: real)
    ensures 0.0 <= r
    ensures r == 0.0 <==> time - milliseconds as real / 1000.0 <= 0.0
    ensures r != 0.0 ==> r == time - milliseconds as real / 1000.0
  {
    var t := time - milliseconds as real / 1000.0;
    if t <= 0.0 then 0.0 else t
  }

  /** `divmod(time, 60)` on a float: whole minutes and the seconds left over. */
  function DivMod60(t: real): (r: (int, real))
    ensures r.0 as real * 60.0 + r.1 == t
    ensures 0.0 <= r.1 < 60.0
    ensures 0.0 <= t ==> 0 <= r.0
  {
    var m := (t / 60.0).Floor;
    (m, t - m as real * 60.0)
  }

  function Total(elapsed: seq<nat>): nat {
    if elapsed == [] then 0 else elapsed[0] + Total(elapsed[1..])
  }

  /** The time left after a run of frames. */
  function Countdown(time: real, elapsed: seq<nat>): real
    decreases |elapsed|
  {
    if elapsed == [] then time else Countdown(TimerTick(time, elapsed[0]), elapsed[1..])
  }

  function Max(a: real, b: real): real { if a < b then b else a }

  /** Clamping each frame at zero is the same as clamping once at the end: the
      time left is the starting time less all the time elapsed, or zero. */
  lemma {:induction false} CountdownTotal(time: real, elapsed: seq<nat>)
    requires 0.0 <= time
    ensures Countdown(time, elapsed) == Max(0.0, time - Total(elapsed) as real / 1000.0)
    decreases |elapsed|
  {
    if elapsed != [] {
      var next := TimerTick(time, elapsed[0]);
      CountdownTotal(next, elapsed[1..]);
    }
  }

  /** The round timer (`Timer`): `time` counts down in seconds from `maxTime`. */
  class Timer {
    const maxTime: real
    var time: real
    var lowTime: bool

    constructor (maxTime: real)
      ensures this.maxTime == maxTime && time == maxTime && !lowTime
    {
      this.maxTime := maxTime;
      time := maxTime;
      lowTime := false;
    }

    /** `update(milliseconds_passed)`: `None` once the time is up, otherwise the
        minutes and seconds shown. The low-time warning is raised once the time
        left, before clamping, drops below a tenth of the maximum. */
    method Update(milliseconds: int) returns (display: Option<(int, real)>)
      modifies this`time, this`lowTime
      ensures time == TimerTick(old(time), milliseconds)
      ensures lowTime <==> old(lowTime) || old(time) - milliseconds as real / 1000.0 < maxTime / 10.0
      ensures display.None? <==> time == 0.0
      ensures display.Some? ==> display.value == DivMod60(time)
    {
      time := time - milliseconds as real / 1000.0;
      if time < maxTime / 10.0 && !lowTime {
        lowTime := true;
      }
      if time <= 0.0 {
        time := 0.0;
        return None;
      }
      display := Some(DivMod60(time));
    }
  }

  // ---------------------------------------------------------------- Boxes

  /** The kinds of cargo, one per key of `item_values` and of the sprite sheet. */
  datatype Shape = LargeCrate | SmallCrate | LongCrate | SmallBox | Table | Dog | Pipe | BigTable | Chair

  /** `item_values[shape]`: from 250 for the small crate and the small box up to
      50000 for the dog, the only kind worth that much. */
  function ItemValue(s: Shape): (v: nat)
    ensures 250 <= v <= 50000
    ensures v == 50000 <==> s == Dog
  {
    match s
    case LargeCrate => 1000
    case SmallCrate => 250
    case LongCrate => 500
    case SmallBox => 250
    case Table => 2500
    case Dog => 50000
    case Pipe => 750
    case BigTable => 5000
    case Chair => 2500
  }

  /** `int` applied to a float: truncation toward zero. */
  function Trunc(v: real): (r: int)
    ensures 0.0 <= v ==> r as real <= v < r as real + 1.0
    ensures v < 0.0 ==> r as real - 1.0 < v <= r as real
  {
    if 0.0 <= v then v.Floor else -((-v).Floor)
  }

  /** The first half of `Box.update`: a box at rest only probes one pixel down
      (and starts to fall when nothing holds it); a falling box moves down by
      its velocity and stays falling exactly when that move was not retreated.
      The result is the new rect and the new `fall`. */
  function FallPhase(start: Body, fall: bool, yVel: real, others: seq<Body>): (r: (Rect, bool))
    requires start.Valid() && AllValid(others)
    ensures r.0.x == start.rect.x && r.0.w == start.rect.w && r.0.h == start.rect.h
  {
    if fall then Resolve(start, (0, Trunc(yVel)), Y, others)
    else (start.rect, !Supported(start, others))
  }

  /** A box at rest does not move, and starts to fall exactly when no other
      body overlaps it, at pixel level, one pixel lower. */
  lemma FallPhaseAtRest(start: Body, yVel: real, others: seq<Body>)
    requires start.Valid() && AllValid(others)
    ensures FallPhase(start, false, yVel, others).0 == start.rect
    ensures FallPhase(start, false, yVel, others).1 <==>
            forall i :: 0 <= i < |others| ==> !MaskCollide(Body(start.rect.Move(0, 1), start.mask), others[i])
  {
    SupportedIff(start, others);
  }

  /** A falling box lands exactly when some other body overlaps its destination
      at pixel level; while it keeps falling it moves by exactly the truncated
      velocity, and it never moves sideways. */
  lemma FallPhaseFalling(start: Body, yVel: real, others: seq<Body>)
    requires start.Valid() && AllValid(others)
    ensures var dest := Destination(start, (0, Trunc(yVel)));
            var r := FallPhase(start, true, yVel, others);
            && (!r.1 <==> exists i :: 0 <= i < |others| && MaskCollide(dest, others[i]))
            && (r.1 ==> r.0 == dest.rect)
            && r.0.x == start.rect.x
  {
    ResolveUnalteredIff(start, (0, Trunc(yVel)), Y, others);
    ResolveSpec(start, (0, Trunc(yVel)), Y, others);
  }

  /** `move_to_target(target)`: the displacement that brings the rect's centre
      to the target, resolved against the other bodies. */
  function Chase(b: Body, target: (int, int), others: seq<Body>): (r: Rect)
    requires b.Valid() && AllValid(others)
    ensures r.w == b.rect.w && r.h == b.rect.h
  {
    MoveResolved(b, target.0 - b.rect.CenterX(), target.1 - b.rect.CenterY(), others)
  }

  /** With nothing in the way, a held box is centred on the mouse. */
  lemma ChaseReachesTarget(b: Body, target: (int, int))
    requires b.Valid()
    ensures Chase(b, target, []).CenterX() == target.0 && Chase(b, target, []).CenterY() == target.1
  {
    MoveInFreeField(b, target.0 - b.rect.CenterX(), target.1 - b.rect.CenterY());
  }

  /** A box (`Box`): a sprite with the physics fields, a kind of cargo and
      whether the player holds it. */
  class Box {
    const sprite: Sprite
    const physics: Falling
    const shape: Shape
    var held: bool

    predicate Valid()
      reads sprite
    {
      physics.sprite == sprite && sprite.Valid()
    }

    constructor (x: int, y: int, w: nat, h: nat, mask: Mask, shape: Shape)
      requires Fits(mask, w, h)
      ensures Valid() && fresh(sprite) && fresh(physics)
      ensures sprite.rect == Rect(x, y, w, h) && sprite.mask == mask && sprite.angle == 0.0
      ensures !physics.fall && physics.time == None && physics.yVel == 0.0 && physics.yVelI == 0.0
      ensures this.shape == shape && !held
    {
      var s := new Sprite(x, y, w, h, mask, 0.0);
      sprite := s;
      physics := new Falling(s);
      this.shape := shape;
      held := false;
    }

    /** `toggle()`: pick the box up or put it down. */
    method Toggle()
      modifies this`held
      ensures held == !old(held)
    {
      held := if held then false else true;
    }

    /** `move_to_target(target, colliders)`. */
    method MoveToTarget(target: (int, int), colliders: seq<Sprite>)
      requires sprite.Valid() && AllValidSprites(colliders) && Distinct(colliders)
      modifies sprite`rect
      ensures sprite.Valid() && AllValid(OthersOf(sprite, colliders))
      ensures sprite.rect == Chase(old(sprite.AsBody()), target, OthersOf(sprite, colliders))
    {
      var dx := target.0 - sprite.rect.CenterX();
      var dy := target.1 - sprite.rect.CenterY();
      sprite.Move(dx, dy, colliders);
    }

    /** The falling half of `update(colliders, …)`. */
    method Fall(colliders: seq<Sprite>)
      requires Valid() && AllValidSprites(colliders) && Distinct(colliders)
      modifies sprite`rect, physics`fall
      ensures Valid() && AllValid(OthersOf(sprite, colliders))
      ensures (sprite.rect, physics.fall) ==
              FallPhase(old(sprite.AsBody()), old(physics.fall), physics.yVel, OthersOf(sprite, colliders))
    {
      if !physics.fall {
        physics.CheckFalling(colliders);
      } else {
        var unaltered := sprite.CheckCollisions((0, Trunc(physics.yVel)), Y, colliders);
        physics.fall := unaltered;
      }
    }

    /** `update(colliders, …)` at clock `now` with the mouse at `mouse`: the fall
        or the probe, then the velocity update, then, when held, the move to the
        mouse. */
    method Update(now: int, mouse: (int, int), colliders: seq<Sprite>)
      requires Valid() && AllValidSprites(colliders) && Distinct(colliders)
      modifies sprite`rect, physics`fall, physics`time, physics`yVel, physics`yVelI
      ensures Valid() && AllValid(OthersOf(sprite, colliders)) && old(sprite.AsBody()).Valid()
      ensures var others := OthersOf(sprite, colliders);
              var landed := FallPhase(old(sprite.AsBody()), old(physics.fall), old(physics.yVel), others);
              && physics.State() == Step(FallState(landed.1, old(physics.time), old(physics.yVel), old(physics.yVelI)), now)
              && sprite.rect == if held then Chase(Body(landed.0, sprite.mask), mouse, others) else landed.0
    {
      Fall(colliders);
      ghost var others := OthersOf(sprite, colliders);
      ghost var landed := sprite.rect;
      physics.PhysicsUpdate(now);
      assert sprite.rect == landed && OthersOf(sprite, colliders) == others;
      if held {
        MoveToTarget(mouse, colliders);
      }
    }
  }

  /** The index of the first box whose rect contains the point, if any. */
  function FirstUnder(boxes: seq<Box>, px: int, py: int): (r: Option<nat>)
    reads set b | b in boxes :: b.sprite
    ensures r.Some? ==> r.value < |boxes| && boxes[r.value].sprite.rect.ContainsPoint(px, py)
    ensures forall j :: 0 <= j < |boxes| && (r.None? || j < r.value) ==> !boxes[j].sprite.rect.ContainsPoint(px, py)
  {
    if boxes == [] then None
    else if boxes[0].sprite.rect.ContainsPoint(px, py) then Some(0)
    else
      var rest := FirstUnder(boxes[1..], px, py);
      assert forall j :: 1 <= j < |boxes| ==> boxes[j] == boxes[1..][j - 1];
      if rest.Some? then Some(rest.value + 1) else None
  }

  /** The boxes, in order, whose rect overlaps the truck's rect
      (`pygame.sprite.collide_rect`). */
  function InTruck(boxes: seq<Box>, truck: Rect): (r: seq<Box>)
    reads set b | b in boxes :: b.sprite
    ensures forall i :: 0 <= i < |r| ==> r[i] in boxes && r[i].sprite.rect.Collides(truck)
    ensures forall i :: 0 <= i < |boxes| && boxes[i].sprite.rect.Collides(truck) ==> boxes[i] in r
    ensures |r| <= |boxes|
    decreases |boxes|
  {
    if boxes == [] then []
    else
      var front := boxes[..|boxes| - 1];
      var last := boxes[|boxes| - 1];
      assert forall i :: 0 <= i < |front| ==> front[i] == boxes[i];
      InTruck(front, truck) + (if last.sprite.rect.Collides(truck) then [last] else [])
  }

  /** `get_area()` summed: the opaque pixels of the boxes' masks. */
  function TotalArea(boxes: seq<Box>): (n: nat)
    reads set b | b in boxes :: b.sprite
    ensures forall i :: 0 <= i < |boxes| ==> |boxes[i].sprite.mask| <= n
  {
    if boxes == [] then 0
    else
      var rest := TotalArea(boxes[1..]);
      assert forall i :: 1 <= i < |boxes| ==> boxes[i] == boxes[1..][i - 1];
      |boxes[0].sprite.mask| + rest
  }

  /** Collecting the boxes of a concatenation collects each part in turn, so
      the boxes keep the group's order. */
  lemma {:induction false} InTruckAppend(l: seq<Box>, t: seq<Box>, truck: Rect)
    ensures InTruck(l + t, truck) == InTruck(l, truck) + InTruck(t, truck)
    decreases |t|
  {
    if t == [] {
      assert l + t == l;
    } else {
      var front := t[..|t| - 1];
      InTruckAppend(l, front, truck);
      assert (l + t)[..|l + t| - 1] == l + front;
      assert (l + t)[|l + t| - 1] == t[|t| - 1];
    }
  }

  /** Each box occurs in the result as often as in the group when its rect
      overlaps the truck's, and not at all otherwise. */
  lemma {:induction false} InTruckCounts(boxes: seq<Box>, truck: Rect)
    ensures forall b: Box :: multiset(InTruck(boxes, truck))[b] ==
                             if b.sprite.rect.Collides(truck) then multiset(boxes)[b] else 0
    decreases |boxes|
  {
    if boxes != [] {
      var front := boxes[..|boxes| - 1];
      InTruckCounts(front, truck);
      assert boxes == front + [boxes[|boxes| - 1]];
    }
  }

  /** The group of boxes (`BoxController`) and the box the player has picked up. */
  class BoxController {
    var boxes: seq<Box>
    var selected: Option<Box>

    /** Starts with nothing selected; the group is consistent from the start
        when none of its boxes is held, as none is when the level builds them. */
    constructor (boxes: seq<Box>)
      ensures this.boxes == boxes && selected == None
      ensures (forall j :: 0 <= j < |boxes| ==> !boxes[j].held) ==> Consistent()
    {
      this.boxes := boxes;
      selected := None;
    }

    function Selection(): set<Box>
      reads this
    {
      if selected.Some? then {selected.value} else {}
    }

    /** The selection and the boxes' `held` flags agree: the selected box is
        held, and a box of the group is held only when it is the selected one. */
    predicate Consistent()
      reads this, boxes, Selection()
    {
      && (forall j :: 0 <= j < |boxes| ==> (boxes[j].held <==> selected == Some(boxes[j])))
      && (selected.Some? ==> selected.value.held)
    }

    /** `toggle()` with the mouse at `mouse`: with nothing selected, pick up the
        first box under the mouse, if any; otherwise put the selected box down. */
    method Toggle(mouse: (int, int))
      modifies this`selected, boxes, Selection()
      ensures old(selected).Some? ==> selected == None && old(selected).value.held == !old(selected.value.held)
      ensures old(selected).None? ==>
                var i := FirstUnder(boxes, mouse.0, mouse.1);
                && (i.None? ==> selected == None)
                && (i.Some? ==> selected == Some(boxes[i.value]) && boxes[i.value].held == !old(boxes[i.value].held))
      ensures forall j :: 0 <= j < |boxes| && Some(boxes[j]) != old(selected) && Some(boxes[j]) != selected ==>
                boxes[j].held == old(boxes[j].held)
      ensures old(Consistent()) ==> Consistent()
    {
      if selected.None? {
        var i := 0;
        while i < |boxes| && !boxes[i].sprite.rect.ContainsPoint(mouse.0, mouse.1)
          invariant 0 <= i <= |boxes|
          invariant forall j :: 0 <= j < i ==> !boxes[j].sprite.rect.ContainsPoint(mouse.0, mouse.1)
        {
          i := i + 1;
        }
        if i < |boxes| {
          boxes[i].Toggle();
          selected := Some(boxes[i]);
        }
      } else {
        selected.value.Toggle();
        selected := None;
      }
    }

    /** `rotate_selected(angle)`: turn the selected box, if any, by `angle`
        degrees; `w`, `h` and `newMask` describe the image rotated to the new
        angle. */
    method RotateSelected(angle: real, w: nat, h: nat, newMask: Mask)
      requires Fits(newMask, w, h)
      modifies if selected.Some? then {selected.value.sprite} else {}
      ensures selected.Some? ==>
                var s := selected.value.sprite;
                && s.angle == Mod360(old(s.angle) + angle)
                && s.rect.CenterX() == old(s.rect.CenterX()) && s.rect.CenterY() == old(s.rect.CenterY())
                && s.rect.w == w && s.rect.h == h && s.mask == newMask
    {
      if selected.Some? {
        var s := selected.value.sprite;
        s.Rotate(s.angle + angle, w, h, newMask);
      }
    }

    /** `area_in_truck(truck)`: the boxes overlapping the truck and their total
        area. */
    method AreaInTruck(truck: Truck) returns (area: nat, inTruck: seq<Box>)
      ensures inTruck == InTruck(boxes, truck.sprite.rect)
      ensures area == TotalArea(inTruck)
    {
      inTruck := [];
      for i := 0 to |boxes|
        invariant inTruck == InTruck(boxes[..i], truck.sprite.rect)
      {
        assert boxes[..i + 1][..i] == boxes[..i];
        if boxes[i].sprite.rect.Collides(truck.sprite.rect) {
          inTruck := inTruck + [boxes[i]];
        }
      }
      assert boxes[..|boxes|] == boxes;
      area := TotalArea(inTruck);
    }
  }

  // ---------------------------------------------------------------- Truck

  /** The alpha value that marks the trailer's pixels in the truck image. */
  const TrailerAlpha: int := 50

  /** Marked pixels in column `x` among the rows below `n`. */
  function ColumnCount(a: array2<int>, x: nat, n: nat): (c: nat)
    requires x < a.Length0 && n <= a.Length1
    reads a
    ensures c <= n
  {
    if n == 0 then 0 else ColumnCount(a, x, n - 1) + (if a[x, n - 1] == TrailerAlpha then 1 else 0)
  }

  /** Marked pixels in the columns below `m`. */
  function CountUpTo(a: array2<int>, m: nat): (c: nat)
    requires m <= a.Length0
    reads a
    ensures c <= m * a.Length1
  {
    if m == 0 then 0 else CountUpTo(a, m - 1) + ColumnCount(a, m - 1, a.Length1)
  }

  /** The number of pixels of the image whose alpha is exactly `TrailerAlpha`. */
  function AlphaCount(a: array2<int>): (c: nat)
    reads a
    ensures c <= a.Length0 * a.Length1
  {
    CountUpTo(a, a.Length0)
  }

  /** The marked pixels of column `x` among the rows below `n`. */
  ghost function MarkedColumn(a: array2<int>, x: nat, n: nat): set<(int, int)>
    requires x < a.Length0 && n <= a.Length1
    reads a
  {
    if n == 0 then {}
    else MarkedColumn(a, x, n - 1) + (if a[x, n - 1] == TrailerAlpha then {(x, n - 1)} else {})
  }

  /** The marked pixels of the columns below `m`. */
  ghost function Marked(a: array2<int>, m: nat): set<(int, int)>
    requires m <= a.Length0
    reads a
  {
    if m == 0 then {} else Marked(a, m - 1) + MarkedColumn(a, m - 1, a.Length1)
  }

  /** `MarkedColumn` holds exactly the marked pixels of its column and rows. */
  lemma {:induction false} MarkedColumnHas(a: array2<int>, x: nat, n: nat, p: (int, int))
    requires x < a.Length0 && n <= a.Length1
    ensures p in MarkedColumn(a, x, n) <==> p.0 == x && 0 <= p.1 < n && a[x, p.1] == TrailerAlpha
  {
    if n > 0 {
      MarkedColumnHas(a, x, n - 1, p);
    }
  }

  /** `Marked` holds exactly the pixels with the trailer's alpha, in the columns below `m`. */
  lemma {:induction false} MarkedHas(a: array2<int>, m: nat, p: (int, int))
    requires m <= a.Length0
    ensures p in Marked(a, m) <==> 0 <= p.0 < m && 0 <= p.1 < a.Length1 && a[p.0, p.1] == TrailerAlpha
  {
    if m > 0 {
      MarkedHas(a, m - 1, p);
      MarkedColumnHas(a, m - 1, a.Length1, p);
    }
  }

  /** Two sets with no common element: the union's size is the sum of the sizes. */
  lemma CardDisjointUnion(s: set<(int, int)>, t: set<(int, int)>)
    requires s * t == {}
    ensures |s + t| == |s| + |t|
  {
  }

  /** A column's count is the size of its set of marked pixels. */
  lemma {:induction false} ColumnCountIsMarked(a: array2<int>, x: nat, n: nat)
    requires x < a.Length0 && n <= a.Length1
    ensures ColumnCount(a, x, n) == |MarkedColumn(a, x, n)|
  {
    if n > 0 {
      var k := n - 1;
      ColumnCountIsMarked(a, x, k);
      MarkedColumnHas(a, x, k, (x, k));
      var pixel: set<(int, int)> := if a[x, k] == TrailerAlpha then {(x, k)} else {};
      assert MarkedColumn(a, x, k) * pixel == {};
      CardDisjointUnion(MarkedColumn(a, x, k), pixel);
    }
  }

  /** The columns below `k` share no pixel with column `k`. */
  lemma MarkedDisjoint(a: array2<int>, k: nat)
    requires k < a.Length0
    ensures Marked(a, k) * MarkedColumn(a, k, a.Length1) == {}
  {
    forall p | p in Marked(a, k) ensures p !in MarkedColumn(a, k, a.Length1) {
      MarkedHas(a, k, p);
      MarkedColumnHas(a, k, a.Length1, p);
    }
  }

  /** Adding column `k` adds its marked pixels to the count of marked pixels. */
  lemma MarkedStep(a: array2<int>, k: nat)
    requires k < a.Length0
    ensures |Marked(a, k + 1)| == |Marked(a, k)| + |MarkedColumn(a, k, a.Length1)|
  {
    MarkedDisjoint(a, k);
    CardDisjointUnion(Marked(a, k), MarkedColumn(a, k, a.Length1));
  }

  /** The pixel count is the number of pixels with the trailer's alpha. */
  lemma {:induction false} AlphaCountIsMarked(a: array2<int>, m: nat)
    requires m <= a.Length0
    ensures CountUpTo(a, m) == |Marked(a, m)|
  {
    if m > 0 {
      var k := m - 1;
      AlphaCountIsMarked(a, k);
      ColumnCountIsMarked(a, k, a.Length1);
      MarkedStep(a, k);
    }
  }

  /** The trailer area is the number of pixels whose alpha is exactly `TrailerAlpha`. */
  lemma AlphaCountCounts(a: array2<int>)
    ensures AlphaCount(a) == |Marked(a, a.Length0)|
    ensures forall p :: p in Marked(a, a.Length0) <==>
              0 <= p.0 < a.Length0 && 0 <= p.1 < a.Length1 && a[p.0, p.1] == TrailerAlpha
  {
    AlphaCountIsMarked(a, a.Length0);
    forall p ensures p in Marked(a, a.Length0) <==>
                     0 <= p.0 < a.Length0 && 0 <= p.1 < a.Length1 && a[p.0, p.1] == TrailerAlpha {
      MarkedHas(a, a.Length0, p);
    }
  }

  /** The cached trailer area as the getter would return it: the cache when it
      is truthy, otherwise a fresh count. */
  function Refreshed(cache: Option<int>, a: array2<int>): int
    reads a
  {
    if Truthy(cache) then cache.value else AlphaCount(a)
  }

  /** The truck (`Truck`): a sprite, the alpha channel of its image (indexed
      column first) and the cached trailer area `_trailer_area`. */
  class Truck {
    const sprite: Sprite
    const alpha: array2<int>
    var cache: Option<int>

    constructor (sprite: Sprite, alpha: array2<int>)
      ensures this.sprite == sprite && this.alpha == alpha
      ensures cache == Some(AlphaCount(alpha))
    {
      this.sprite := sprite;
      this.alpha := alpha;
      cache := None;
      new;
      SetTrailerArea(None);
    }

    /** The nested loop of the `trailer_area` setter. */
    method CountAlpha() returns (count: nat)
      ensures count == AlphaCount(alpha)
    {
      count := 0;
      for x := 0 to alpha.Length0
        invariant count == CountUpTo(alpha, x)
      {
        for y := 0 to alpha.Length1
          invariant count == CountUpTo(alpha, x) + ColumnCount(alpha, x, y)
        {
          if alpha[x, y] == TrailerAlpha {
            count := count + 1;
          }
        }
      }
    }

    /** The `trailer_area` setter: store a truthy value, otherwise count. */
    method SetTrailerArea(value: Option<int>)
      modifies this`cache
      ensures cache == if Truthy(value) then value else Some(AlphaCount(alpha))
    {
      if Truthy(value) {
        cache := value;
      } else {
        var count := CountAlpha();
        cache := Some(count);
      }
    }

    /** The `trailer_area` getter: recount whenever the cache is falsy, which
        includes a count of 0. */
    method TrailerArea() returns (area: int)
      modifies this`cache
      ensures area == Refreshed(old(cache), alpha) && cache == Some(area)
    {
      if !Truthy(cache) {
        SetTrailerArea(None);
      }
      area := cache.value;
    }
  }

  // ---------------------------------------------------------------- Score

  /** `sum(item_values[box.shape] for box in boxes)`. */
  function Worth(boxes: seq<Box>): (v: nat)
    ensures 250 * |boxes| <= v <= 50000 * |boxes|
  {
    if boxes == [] then 0 else ItemValue(boxes[0].shape) + Worth(boxes[1..])
  }

  /** `[x for x in xs if x not in ys]`. */
  function Difference(xs: seq<Box>, ys: seq<Box>): (r: seq<Box>)
    ensures forall b :: b in r ==> b in xs && b !in ys
    ensures forall b :: b in xs && b !in ys ==> b in r
    ensures |r| <= |xs|
  {
    if xs == [] then []
    else
      var rest := Difference(xs[1..], ys);
      assert xs == [xs[0]] + xs[1..];
      if xs[0] in ys then rest else [xs[0]] + rest
  }

  /** The comprehension over a concatenation is the concatenation of the two
      results, so the boxes keep their order. */
  lemma {:induction false} DifferenceAppend(l: seq<Box>, t: seq<Box>, ys: seq<Box>)
    ensures Difference(l + t, ys) == Difference(l, ys) + Difference(t, ys)
  {
    if l == [] {
      assert l + t == t;
    } else {
      assert (l + t)[1..] == l[1..] + t;
      DifferenceAppend(l[1..], t, ys);
    }
  }

  /** Each box occurs in the result as often as in `xs` when it is not in
      `ys`, and not at all otherwise. */
  lemma {:induction false} DifferenceCounts(xs: seq<Box>, ys: seq<Box>)
    ensures forall b: Box :: multiset(Difference(xs, ys))[b] == if b in ys then 0 else multiset(xs)[b]
  {
    if xs != [] {
      DifferenceCounts(xs[1..], ys);
      assert xs == [xs[0]] + xs[1..];
    }
  }

  /** Nothing is left when every box of `xs` is in `ys`. */
  lemma {:induction false} DifferenceEmpty(xs: seq<Box>, ys: seq<Box>)
    requires forall i :: 0 <= i < |xs| ==> xs[i] in ys
    ensures Difference(xs, ys) == []
  {
    if xs != [] {
      DifferenceEmpty(xs[1..], ys);
    }
  }

  /** `worth * (filled / trailer_area)`: a worth scaled by the filled fraction
      of the trailer. */
  function Scale(worth: int, filled: int, trailerArea: int): (r: real)
    requires trailerArea != 0
    ensures r * trailerArea as real == worth as real * filled as real
  {
    worth as real * (filled as real / trailerArea as real)
  }

  /** A fraction of a non-negative area scales a worth without changing its sign. */
  lemma ScaleSign(worth: int, filled: int, trailerArea: int)
    requires 0 <= filled && 0 < trailerArea
    ensures 0 <= worth ==> 0.0 <= Scale(worth, filled, trailerArea)
    ensures worth <= 0 ==> Scale(worth, filled, trailerArea) <= 0.0
  {
    var f := filled as real / trailerArea as real;
    assert f * trailerArea as real == filled as real;
    assert 0.0 <= f;
  }

  /** Negating the worth negates the scaled score. */
  lemma ScaleNegate(worth: int, filled: int, trailerArea: int)
    requires trailerArea != 0
    ensures Scale(-worth, filled, trailerArea) == -Scale(worth, filled, trailerArea)
  {
  }

  /** `calc_score(area, boxes, truck, remove)` with the trailer area already
      read: the boxes' worth, negated on removal, scaled by the fraction of the
      trailer filled, where a removal adds the removed boxes' area back.
      `None` is the division by zero of an empty trailer. */
  function CalcScore(area: int, boxes: seq<Box>, trailerArea: int, remove: bool): (r: Option<real>)
    reads set b | b in boxes :: b.sprite
    ensures r.None? <==> trailerArea == 0
  {
    if trailerArea == 0 then None
    else
      var w: int := Worth(boxes);
      var worth := if remove then -w else w;
      var filled := if remove then area + TotalArea(boxes) else area;
      Some(Scale(worth, filled, trailerArea))
  }

  /** Boxes coming in never lower the score and boxes going out never raise it. */
  lemma CalcScoreSign(area: int, boxes: seq<Box>, trailerArea: int, remove: bool)
    requires 0 <= area && 0 < trailerArea
    ensures !remove ==> 0.0 <= CalcScore(area, boxes, trailerArea, remove).value
    ensures remove ==> CalcScore(area, boxes, trailerArea, remove).value <= 0.0
  {
    var w: int := Worth(boxes);
    ScaleSign(if remove then -w else w, if remove then area + TotalArea(boxes) else area, trailerArea);
  }

  /** Taking boxes out deducts exactly what putting them in earned, when the
      rest of the load is the same: the area the removal adds back is their own. */
  lemma CalcScoreRemoveUndoesAdd(area: int, boxes: seq<Box>, trailerArea: int)
    requires trailerArea != 0
    ensures CalcScore(area, boxes, trailerArea, true).value
            == -CalcScore(area + TotalArea(boxes), boxes, trailerArea, false).value
  {
    ScaleNegate(Worth(boxes), area + TotalArea(boxes), trailerArea);
  }

  /** What one `update` adds to the score when the boxes in the truck change
      from `previous` to `current`: the boxes that came in, or when none did,
      the boxes that went out. */
  function ScoreIncrement(area: int, previous: seq<Box>, current: seq<Box>, trailerArea: int): (r: Option<real>)
    reads set b | b in previous :: b.sprite, set b | b in current :: b.sprite
    ensures r.None? <==> trailerArea == 0
  {
    var added := Difference(current, previous);
    if added != [] then CalcScore(area, added, trailerArea, false)
    else CalcScore(area, Difference(previous, current), trailerArea, true)
  }

  /** The increment is never negative while some box came in, even when other
      boxes went out in the same frame, and never positive otherwise. */
  lemma ScoreIncrementSign(area: int, previous: seq<Box>, current: seq<Box>, trailerArea: int)
    requires 0 <= area && 0 < trailerArea
    ensures (exists b :: b in current && b !in previous) ==> 0.0 <= ScoreIncrement(area, previous, current, trailerArea).value
    ensures (forall b :: b in current ==> b in previous) ==> ScoreIncrement(area, previous, current, trailerArea).value <= 0.0
  {
    var added := Difference(current, previous);
    if added != [] {
      CalcScoreSign(area, added, trailerArea, false);
      assert added[0] in current && added[0] !in previous;
    } else {
      CalcScoreSign(area, Difference(previous, current), trailerArea, true);
    }
  }

  /** The same boxes in another order make the lists differ, yet add nothing:
      no box came in and none went out. */
  lemma ScoreIncrementReorder(area: int, previous: seq<Box>, current: seq<Box>, trailerArea: int)
    requires trailerArea != 0
    requires forall i :: 0 <= i < |current| ==> current[i] in previous
    requires forall i :: 0 <= i < |previous| ==> previous[i] in current
    ensures ScoreIncrement(area, previous, current, trailerArea) == Some(0.0)
  {
    DifferenceEmpty(current, previous);
    DifferenceEmpty(previous, current);
  }

  /** The score (`Score`) and the boxes it last saw in the truck. */
  class Score {
    var score: real
    var boxesInTruck: seq<Box>

    constructor (score: real)
      ensures this.score == score && boxesInTruck == []
    {
      this.score := score;
      boxesInTruck := [];
    }

    /** `update_score(increment)`. */
    method UpdateScore(increment: real)
      modifies this`score
      ensures score == old(score) + increment
    {
      score := score + increment;
    }

    /** `update(box_controller, truck)`: when the boxes in the truck differ from
        the last ones seen, remember the new list and score the boxes that came
        in, or, when none came in, deduct the boxes that went out. `ok` is false
        when the trailer area is zero (`ZeroDivisionError`); the new list is
        already stored then and the score is unchanged. */
    method Update(controller: BoxController, truck: Truck) returns (ok: bool)
      modifies this`score, this`boxesInTruck, truck`cache
      ensures boxesInTruck == old(InTruck(controller.boxes, truck.sprite.rect))
      ensures boxesInTruck == old(boxesInTruck) ==> ok && score == old(score) && truck.cache == old(truck.cache)
      ensures boxesInTruck != old(boxesInTruck) ==>
                var inc := old(var current := InTruck(controller.boxes, truck.sprite.rect);
                               ScoreIncrement(TotalArea(current), boxesInTruck, current, Refreshed(truck.cache, truck.alpha)));
                && truck.cache == old(Some(Refreshed(truck.cache, truck.alpha)))
                && (ok <==> inc.Some?)
                && score == old(score) + (if inc.Some? then inc.value else 0.0)
    {
      var area, current := controller.AreaInTruck(truck);
      ok := true;
      if current != boxesInTruck {
        ok := Rescore(area, current, truck);
      }
    }

    /** The changed-list branch of `update`: store the new list, then read the
        trailer area and add the increment. */
    method Rescore(area: int, current: seq<Box>, truck: Truck) returns (ok: bool)
      modifies this`score, this`boxesInTruck, truck`cache
      ensures boxesInTruck == current
      ensures truck.cache == old(Some(Refreshed(truck.cache, truck.alpha)))
      ensures var inc := old(ScoreIncrement(area, boxesInTruck, current, Refreshed(truck.cache, truck.alpha)));
              && (ok <==> inc.Some?)
              && score == old(score) + (if inc.Some? then inc.value else 0.0)
    {
      ghost var previous := boxesInTruck;
      ok := true;
      var added := Difference(current, boxesInTruck);
      var changed, remove := added, false;
      if added == [] {
        changed, remove := Difference(boxesInTruck, current), true;
      }
      ghost var expected := CalcScore(area, changed, Refreshed(truck.cache, truck.alpha), remove);
      assert expected == ScoreIncrement(area, previous, current, Refreshed(truck.cache, truck.alpha));
      boxesInTruck := current;
      var trailerArea := truck.TrailerArea();
      var inc := CalcScore(area, changed, trailerArea, remove);
      assert inc == expected;
      if inc.Some? {
        UpdateScore(inc.value);
      } else {
        ok := false;
      }
    }
  }

  // ---------------------------------------------------------------- Grade

  /** `closest_value(n, ls)`: the greatest element of `ls` strictly below `n`,
      or 0 when there is none. */
  predicate Closest(n: real, ls: seq<int>, key: int) {
    && ((exists i :: 0 <= i < |ls| && (ls[i] as real) < n) ==>
          key in ls && (key as real) < n && forall i :: 0 <= i < |ls| && (ls[i] as real) < n ==> ls[i] <= key)
    && ((forall i :: 0 <= i < |ls| ==> n <= ls[i] as real) ==> key == 0)
  }

  method ClosestValue(n: real, ls: seq<int>) returns (key: int)
    ensures Closest(n, ls, key)
  {
    var closest: real := 0.0;
    key := 0;
    for i := 0 to |ls|
      invariant closest == 0.0 <==> forall j :: 0 <= j < i ==> n <= ls[j] as real
      invariant closest == 0.0 ==> key == 0
      invariant closest != 0.0 ==>
                  && key in ls[..i] && closest == n - key as real && 0.0 < closest
                  && forall j :: 0 <= j < i && (ls[j] as real) < n ==> ls[j] <= key
    {
      var item := ls[i];
      if n > item as real {
        var d := n - item as real;
        var distance := if d < 0.0 then -d else d;
        if distance < closest || closest == 0.0 {
          closest := distance;
          key := item;
        }
      }
    }
  }

  /** The keys of the grade table, in the table's order. */
  const Thresholds: seq<int> := [95, 80, 75, 70, 65, 60, 55, 50, 45, 40, 0]

  const Grades: map<int, string> :=
    map[95 := "A+", 80 := "A", 75 := "B+", 70 := "B", 65 := "C+", 60 := "C",
        55 := "D+", 50 := "D", 45 := "F+", 40 := "F", 0 := "F-"]

  /** The grade bands written out: each grade covers the efficiencies above its
      threshold up to and including the next threshold. */
  function GradeBand(e: real): string {
    if e > 95.0 then "A+"
    else if e > 80.0 then "A"
    else if e > 75.0 then "B+"
    else if e > 70.0 then "B"
    else if e > 65.0 then "C+"
    else if e > 60.0 then "C"
    else if e > 55.0 then "D+"
    else if e > 50.0 then "D"
    else if e > 45.0 then "F+"
    else if e > 40.0 then "F"
    else "F-"
  }

  /** The closest threshold below an efficiency names the grade of its band. */
  lemma ClosestThreshold(e: real, key: int)
    requires Closest(e, Thresholds, key)
    ensures key in Grades && Grades[key] == GradeBand(e)
  {
    if e <= 0.0 {
      assert forall i :: 0 <= i < |Thresholds| ==> e <= Thresholds[i] as real;
    } else {
      assert Thresholds[10] as real < e;
      var k :| 0 <= k < |Thresholds| && Thresholds[k] == key;
      assert k == 0 || k == 1 || k == 2 || k == 3 || k == 4 || k == 5 || k == 6 || k == 7 || k == 8 || k == 9 || k == 10;
      if e > 95.0 { assert Thresholds[0] as real < e; }
      else if e > 80.0 { assert Thresholds[1] as real < e; }
      else if e > 75.0 { assert Thresholds[2] as real < e; }
      else if e > 70.0 { assert Thresholds[3] as real < e; }
      else if e > 65.0 { assert Thresholds[4] as real < e; }
      else if e > 60.0 { assert Thresholds[5] as real < e; }
      else if e > 55.0 { assert Thresholds[6] as real < e; }
      else if e > 50.0 { assert Thresholds[7] as real < e; }
      else if e > 45.0 { assert Thresholds[8] as real < e; }
      else if e > 40.0 { assert Thresholds[9] as real < e; }
    }
  }

  /** `get_grade(efficiency)`. */
  method GetGrade(efficiency: real) returns (grade: string)
    ensures grade == GradeBand(efficiency)
  {
    var key := ClosestValue(efficiency, Thresholds);
    ClosestThreshold(efficiency, key);
    grade := Grades[key];
  }
}
