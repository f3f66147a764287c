/** The pixel-mask collision resolver of `StaticSprite.check_collisions`, stated on
    values: a body, a displacement along one axis and the bodies of the other
    sprites. The class method that mutates a sprite's rect is proved against
    `Resolve` (see module Entities). */
module Collision {
  import opened Geometry

  predicate AllValid(bs: seq<Body>) {
    forall b :: b in bs ==> b.Valid()
  }

  /** `pygame.sprite.spritecollide` on rects: the bodies, in order, whose rect
      overlaps `dest`. */
  function Candidates(dest: Rect, others: seq<Body>): (cs: seq<Body>)
    ensures forall c :: c in cs ==> c in others && dest.Collides(c.rect)
    ensures forall c :: c in others && dest.Collides(c.rect) ==> c in cs
    ensures |cs| <= |others|
  {
    if others == [] then []
    else (if dest.Collides(others[0].rect) then [others[0]] else []) + Candidates(dest, others[1..])
  }

  lemma {:induction false} CandidatesAppend(dest: Rect, l: seq<Body>, r: seq<Body>)
    ensures Candidates(dest, l + r) == Candidates(dest, l) + Candidates(dest, r)
  {
    if l == [] {
      assert l + r == r;
    } else {
      assert (l + r)[1..] == l[1..] + r;
      CandidatesAppend(dest, l[1..], r);
    }
  }

  /** Each body occurs among the candidates exactly as often as among the
      obstacles when its rect overlaps `dest`, and not at all otherwise; with
      `CandidatesAppend` this makes `Candidates` the ordered filter. */
  lemma {:induction false} CandidatesCounts(dest: Rect, others: seq<Body>)
    ensures forall c :: multiset(Candidates(dest, others))[c] ==
                        if dest.Collides(c.rect) then multiset(others)[c] else 0
  {
    if others != [] {
      CandidatesCounts(dest, others[1..]);
      assert others == [others[0]] + others[1..];
    }
  }

  /** `spritecollideany(self, candidates, collide_mask)` found a sprite: the body
      overlaps some candidate at pixel level. */
  predicate Blocked(b: Body, cs: seq<Body>): (r: bool)
    ensures r ==> b.mask != {}
  {
    cs != [] && (MaskCollide(b, cs[0]) || Blocked(b, cs[1..]))
  }

  lemma {:induction false} BlockedAt(b: Body, cs: seq<Body>)
    ensures Blocked(b, cs) <==> exists i :: 0 <= i < |cs| && MaskCollide(b, cs[i])
  {
    if cs != [] {
      BlockedAt(b, cs[1..]);
      if Blocked(b, cs[1..]) {
        var i :| 0 <= i < |cs[1..]| && MaskCollide(b, cs[1..][i]);
        assert cs[i + 1] == cs[1..][i];
      }
      if exists i :: 0 <= i < |cs| && MaskCollide(b, cs[i]) {
        var i :| 0 <= i < |cs| && MaskCollide(b, cs[i]);
        if i > 0 {
          assert cs[1..][i - 1] == cs[i];
        }
      }
    }
  }

  /** `spritecollideany(sprite, candidates, collide_mask)`: the index of the first
      candidate overlapping the body at pixel level, if any. */
  function FirstHit(b: Body, cs: seq<Body>): (r: Option<nat>)
    ensures r.Some? <==> Blocked(b, cs)
    ensures r.Some? ==> r.value < |cs| && MaskCollide(b, cs[r.value])
    ensures r.Some? ==> forall j :: 0 <= j < r.value ==> !MaskCollide(b, cs[j])
  {
    if cs == [] then None
    else if MaskCollide(b, cs[0]) then Some(0)
    else
      var r := FirstHit(b, cs[1..]);
      if r.Some? then
        assert forall j :: 1 <= j <= r.value ==> cs[j] == cs[1..][j - 1];
        Some(r.value + 1)
      else None
  }

  /** The retreat step: +1 when the requested component is negative, -1 otherwise
      (also when it is 0). */
  function RetreatStep(offset: (int, int), a: Axis): (r: int)
    ensures r == 1 || r == -1
    ensures Component(offset, a) != 0 ==> (r < 0 <==> 0 < Component(offset, a))
  {
    if Component(offset, a) < 0 then 1 else -1
  }

  /** `b` after `k` retreat steps of sign `step` along `a`. */
  function Retreated(b: Body, a: Axis, step: int, k: nat): Body {
    Body(b.rect.Shift(a, if step < 0 then -(k as int) else k), b.mask)
  }

  // Termination of the retreat loop. How many more steps of sign `step` the rect
  // `r` can take before it has left the rect `c` behind along `a`.
  function Gap(r: Rect, a: Axis, step: int, c: Rect): int {
    if step < 0 then r.Get(a) + r.Size(a) - c.Get(a) else c.Get(a) + c.Size(a) - r.Get(a)
  }

  function MaxGap(r: Rect, a: Axis, step: int, cs: seq<Body>): nat {
    if cs == [] then 0
    else
      var g := Gap(r, a, step, cs[0].rect);
      var m := MaxGap(r, a, step, cs[1..]);
      if g > m then g else m
  }

  lemma {:induction false} MaxGapBound(r: Rect, a: Axis, step: int, cs: seq<Body>, i: nat)
    requires i < |cs|
    ensures Gap(r, a, step, cs[i].rect) <= MaxGap(r, a, step, cs)
  {
    if i > 0 {
      MaxGapBound(r, a, step, cs[1..], i - 1);
    }
  }

  lemma {:induction false} MaxGapShift(r: Rect, a: Axis, step: int, cs: seq<Body>)
    requires step == 1 || step == -1
    ensures MaxGap(r.Shift(a, step), a, step, cs) == if MaxGap(r, a, step, cs) > 0 then MaxGap(r, a, step, cs) - 1 else 0
  {
    if cs != [] {
      MaxGapShift(r, a, step, cs[1..]);
    }
  }

  lemma BlockedHasGap(b: Body, a: Axis, step: int, cs: seq<Body>)
    requires b.Valid() && AllValid(cs)
    requires step == 1 || step == -1
    requires Blocked(b, cs)
    ensures MaxGap(b.rect, a, step, cs) > 0
  {
    BlockedAt(b, cs);
    var i :| 0 <= i < |cs| && MaskCollide(b, cs[i]);
    MaskCollideNeedsRectCollide(b, cs[i]);
    MaxGapBound(b.rect, a, step, cs, i);
  }

  /** The number of one-pixel retreats the `while` loop of `check_collisions`
      performs from the destination `b`. */
  function Retreats(b: Body, cs: seq<Body>, a: Axis, step: int): (n: nat)
    requires b.Valid() && AllValid(cs)
    requires step == 1 || step == -1
    ensures n == 0 <==> !Blocked(b, cs)
    ensures n <= MaxGap(b.rect, a, step, cs)
    decreases MaxGap(b.rect, a, step, cs)
  {
    if Blocked(b, cs) then
      BlockedHasGap(b, a, step, cs);
      MaxGapShift(b.rect, a, step, cs);
      1 + Retreats(Body(b.rect.Shift(a, step), b.mask), cs, a, step)
    else 0
  }

  lemma RetreatsUnfold(b: Body, cs: seq<Body>, a: Axis, step: int)
    requires b.Valid() && AllValid(cs)
    requires step == 1 || step == -1
    requires Blocked(b, cs)
    ensures Body(b.rect.Shift(a, step), b.mask).Valid()
    ensures Retreats(b, cs, a, step) == 1 + Retreats(Body(b.rect.Shift(a, step), b.mask), cs, a, step)
  {
  }

  lemma RetreatsZero(b: Body, cs: seq<Body>, a: Axis, step: int)
    requires b.Valid() && AllValid(cs)
    requires step == 1 || step == -1
    requires !Blocked(b, cs)
    ensures Retreats(b, cs, a, step) == 0
  {
  }

  lemma RetreatedStep(b: Body, a: Axis, step: int, j: nat)
    requires step == 1 || step == -1
    requires j > 0
    ensures Retreated(Body(b.rect.Shift(a, step), b.mask), a, step, j - 1) == Retreated(b, a, step, j)
  {
  }

  /** After `Retreats` steps the body overlaps no candidate. */
  lemma {:induction false} RetreatsClear(b: Body, cs: seq<Body>, a: Axis, step: int)
    requires b.Valid() && AllValid(cs)
    requires step == 1 || step == -1
    ensures !Blocked(Retreated(b, a, step, Retreats(b, cs, a, step)), cs)
    decreases MaxGap(b.rect, a, step, cs)
  {
    if Blocked(b, cs) {
      BlockedHasGap(b, a, step, cs);
      MaxGapShift(b.rect, a, step, cs);
      var b' := Body(b.rect.Shift(a, step), b.mask);
      RetreatsClear(b', cs, a, step);
      assert Retreated(b', a, step, Retreats(b', cs, a, step)) == Retreated(b, a, step, Retreats(b, cs, a, step));
    } else {
      assert Retreated(b, a, step, 0) == b;
    }
  }

  /** Every position the loop passes through before its last one overlaps a
      candidate: the loop stops at the first free position. */
  lemma {:induction false} RetreatsMinimal(b: Body, cs: seq<Body>, a: Axis, step: int, j: nat)
    requires b.Valid() && AllValid(cs)
    requires step == 1 || step == -1
    requires j < Retreats(b, cs, a, step)
    ensures Blocked(Retreated(b, a, step, j), cs)
    decreases j
  {
    if j == 0 {
      assert Retreated(b, a, step, 0) == b;
    } else {
      var b' := Body(b.rect.Shift(a, step), b.mask);
      RetreatsUnfold(b, cs, a, step);
      RetreatsMinimal(b', cs, a, step, j - 1);
      RetreatedStep(b, a, step, j);
    }
  }

  /** The destination of a displacement. */
  function Destination(start: Body, offset: (int, int)): Body {
    Body(start.rect.Move(offset.0, offset.1), start.mask)
  }

  /** `check_collisions(offset, index, obstacles)` on values: the final rect
      and the `unaltered` flag, for a sprite `start` and the bodies `others`
      of the obstacles other than itself. */
  function Resolve(start: Body, offset: (int, int), a: Axis, others: seq<Body>): (res: (Rect, bool))
    requires start.Valid() && AllValid(others)
    ensures res.0.w == start.rect.w && res.0.h == start.rect.h
    ensures res.0.Get(Other(a)) == start.rect.Get(Other(a)) + Component(offset, Other(a))
  {
    var dest := Destination(start, offset);
    var step := RetreatStep(offset, a);
    var k := Retreats(dest, Candidates(dest.rect, others), a, step);
    (Retreated(dest, a, step, k).rect, k == 0)
  }

  /** `Resolve` once the number of retreats is known. */
  lemma ResolveAfter(start: Body, offset: (int, int), a: Axis, others: seq<Body>, k: nat)
    requires start.Valid() && AllValid(others)
    requires var dest := Destination(start, offset);
             k == Retreats(dest, Candidates(dest.rect, others), a, RetreatStep(offset, a))
    ensures Resolve(start, offset, a, others) ==
            (Retreated(Destination(start, offset), a, RetreatStep(offset, a), k).rect, k == 0)
  {
  }

  /** If no candidate at the destination overlaps the body there at pixel level,
      the whole displacement is applied and reported as unaltered. */
  lemma ResolveFree(start: Body, offset: (int, int), a: Axis, others: seq<Body>)
    requires start.Valid() && AllValid(others)
    requires forall c :: c in Candidates(start.rect.Move(offset.0, offset.1), others) ==>
               !MaskCollide(Destination(start, offset), c)
    ensures Resolve(start, offset, a, others) == (start.rect.Move(offset.0, offset.1), true)
  {
    var dest := Destination(start, offset);
    var cs := Candidates(dest.rect, others);
    assert !Blocked(dest, cs) by {
      BlockedAt(dest, cs);
      forall i | 0 <= i < |cs| ensures !MaskCollide(dest, cs[i]) {
        assert cs[i] in cs;
      }
    }
    assert Retreated(dest, a, RetreatStep(offset, a), 0) == dest;
  }

  /** The result is `unaltered` exactly when the body overlaps some candidate at
      the destination; the retreat is along `a` only, against the sign of the
      requested component, and it ends where no candidate overlaps the body. */
  lemma ResolveSpec(start: Body, offset: (int, int), a: Axis, others: seq<Body>)
    requires start.Valid() && AllValid(others)
    ensures var dest := Destination(start, offset);
            var cs := Candidates(dest.rect, others);
            var res := Resolve(start, offset, a, others);
            && (res.1 <==> !Blocked(dest, cs))
            && (res.1 <==> res.0 == dest.rect)
            && (Component(offset, a) < 0 ==> res.0.Get(a) >= dest.rect.Get(a))
            && (Component(offset, a) >= 0 ==> res.0.Get(a) <= dest.rect.Get(a))
            && !Blocked(Body(res.0, start.mask), cs)
  {
    var dest := Destination(start, offset);
    var cs := Candidates(dest.rect, others);
    var step := RetreatStep(offset, a);
    RetreatsClear(dest, cs, a, step);
    if Blocked(dest, cs) {
      assert Retreats(dest, cs, a, step) > 0;
      assert Resolve(start, offset, a, others).0.Get(a) != dest.rect.Get(a);
    } else {
      assert Retreated(dest, a, step, 0) == dest;
    }
  }

  lemma {:induction false} CandidateHit(b: Body, others: seq<Body>, i: nat)
    requires b.Valid() && AllValid(others)
    requires i < |others| && MaskCollide(b, others[i])
    ensures Blocked(b, Candidates(b.rect, others))
  {
    var cs := Candidates(b.rect, others);
    assert others[i] in others;
    MaskCollideNeedsRectCollide(b, others[i]);
    assert others[i] in cs;
    var j :| 0 <= j < |cs| && cs[j] == others[i];
    BlockedAt(b, cs);
  }

  lemma {:induction false} CandidateHitIsOther(b: Body, others: seq<Body>)
    requires Blocked(b, Candidates(b.rect, others))
    ensures exists i :: 0 <= i < |others| && MaskCollide(b, others[i])
    decreases |others|
  {
    if MaskCollide(b, others[0]) {
      assert 0 < |others|;
    } else {
      if b.rect.Collides(others[0].rect) {
        assert Candidates(b.rect, others)[1..] == Candidates(b.rect, others[1..]);
      } else {
        assert Candidates(b.rect, others) == Candidates(b.rect, others[1..]);
      }
      CandidateHitIsOther(b, others[1..]);
      var i :| 0 <= i < |others[1..]| && MaskCollide(b, others[1..][i]);
      assert others[i + 1] == others[1..][i];
    }
  }

  /** Filtering by rect first loses nothing: the body overlaps a candidate at
      pixel level exactly when it overlaps one of all the other bodies. */
  lemma CandidatesBlock(b: Body, others: seq<Body>)
    requires b.Valid() && AllValid(others)
    ensures Blocked(b, Candidates(b.rect, others)) <==>
            exists i :: 0 <= i < |others| && MaskCollide(b, others[i])
  {
    if exists i :: 0 <= i < |others| && MaskCollide(b, others[i]) {
      var i :| 0 <= i < |others| && MaskCollide(b, others[i]);
      CandidateHit(b, others, i);
    }
    if Blocked(b, Candidates(b.rect, others)) {
      CandidateHitIsOther(b, others);
    }
  }

  /** `check_collisions` reports an unaltered move exactly when no other body
      overlaps the body at its destination at pixel level. */
  lemma ResolveUnalteredIff(start: Body, offset: (int, int), a: Axis, others: seq<Body>)
    requires start.Valid() && AllValid(others)
    ensures Resolve(start, offset, a, others).1 <==>
            forall i :: 0 <= i < |others| ==> !MaskCollide(Destination(start, offset), others[i])
  {
    ResolveSpec(start, offset, a, others);
    CandidatesBlock(Destination(start, offset), others);
  }

  /** Every position strictly between the destination and the final position
      overlaps a candidate. */
  lemma ResolveStopsAtFirstFree(start: Body, offset: (int, int), a: Axis, others: seq<Body>, j: nat)
    requires start.Valid() && AllValid(others)
    requires var dest := Destination(start, offset);
             j < Retreats(dest, Candidates(dest.rect, others), a, RetreatStep(offset, a))
    ensures var dest := Destination(start, offset);
            Blocked(Retreated(dest, a, RetreatStep(offset, a), j), Candidates(dest.rect, others))
  {
    var dest := Destination(start, offset);
    RetreatsMinimal(dest, Candidates(dest.rect, others), a, RetreatStep(offset, a), j);
  }

  /** An obstacle whose rect does not overlap the destination rect is never
      examined, wherever it stands: adding it changes nothing. */
  lemma ResolveIgnoresObstacleAwayFromDestination(start: Body, offset: (int, int), a: Axis,
                                                   l: seq<Body>, far: Body, r: seq<Body>)
    requires start.Valid() && AllValid(l + r) && far.Valid()
    requires !start.rect.Move(offset.0, offset.1).Collides(far.rect)
    ensures AllValid(l + [far] + r)
    ensures Resolve(start, offset, a, l + [far] + r) == Resolve(start, offset, a, l + r)
  {
    var dest := start.rect.Move(offset.0, offset.1);
    assert AllValid(l + [far] + r) by {
      forall b | b in l + [far] + r ensures b.Valid() {
        assert b == far || b in l + r;
      }
    }
    assert Candidates(dest, l + [far] + r) == Candidates(dest, l + r) by {
      CandidatesAppend(dest, l + [far], r);
      CandidatesAppend(dest, l, [far]);
      CandidatesAppend(dest, l, r);
      assert Candidates(dest, [far]) == [];
    }
  }

  /** `move(dx, dy, colliders)`: a zero component is skipped, x is resolved
      before y, and the y resolution starts from the rect the x resolution left. */
  function MoveResolved(b: Body, dx: int, dy: int, others: seq<Body>): (r: Rect)
    requires b.Valid() && AllValid(others)
    ensures r.w == b.rect.w && r.h == b.rect.h
  {
    var r1 := if dx != 0 then Resolve(b, (dx, 0), X, others).0 else b.rect;
    if dy != 0 then Resolve(Body(r1, b.mask), (0, dy), Y, others).0 else r1
  }

  /** With no other sprite in the field, a move is applied in full. */
  lemma MoveInFreeField(b: Body, dx: int, dy: int)
    requires b.Valid()
    ensures MoveResolved(b, dx, dy, []) == b.rect.Move(dx, dy)
  {
    if dx != 0 {
      ResolveFree(b, (dx, 0), X, []);
    }
    var r1 := if dx != 0 then Resolve(b, (dx, 0), X, []).0 else b.rect;
    if dy != 0 {
      ResolveFree(Body(r1, b.mask), (0, dy), Y, []);
    }
  }

  lemma MoveZero(b: Body, others: seq<Body>)
    requires b.Valid() && AllValid(others)
    ensures MoveResolved(b, 0, 0, others) == b.rect
  {
  }

  /** The one-pixel-down probe of `check_falling`: some other sprite whose rect
      overlaps the rect one pixel lower overlaps the body there at pixel level. */
  predicate Supported(b: Body, others: seq<Body>): (r: bool)
    ensures r ==> b.mask != {}
  {
    var below := Body(b.rect.Move(0, 1), b.mask);
    Blocked(below, Candidates(below.rect, others))
  }

  /** The probe finds support exactly when some other body overlaps, at pixel
      level, the body moved one pixel down. */
  lemma SupportedIff(b: Body, others: seq<Body>)
    requires b.Valid() && AllValid(others)
    ensures Supported(b, others) <==>
            exists i :: 0 <= i < |others| && MaskCollide(Body(b.rect.Move(0, 1), b.mask), others[i])
  {
    CandidatesBlock(Body(b.rect.Move(0, 1), b.mask), others);
  }

  // Worked examples with fully opaque images, for which pixel collision and
  // rect collision agree.

  /** The mask of a fully opaque `w` by `h` image. */
  function Opaque(w: nat, h: nat): (m: Mask)
    ensures Fits(m, w, h)
  {
    set i, j | 0 <= i < w && 0 <= j < h :: (i, j)
  }

  lemma OpaqueHas(w: nat, h: nat, i: int, j: int)
    requires 0 <= i < w && 0 <= j < h
    ensures (i, j) in Opaque(w, h)
  {
    assert (i, j) == (i as int, j as int);
  }

  function OpaqueBody(r: Rect): (b: Body)
    ensures b.Valid()
  {
    Body(r, Opaque(r.w, r.h))
  }

  /** Two fully opaque sprites collide at pixel level exactly when their rects overlap. */
  lemma OpaqueCollide(r: Rect, o: Rect)
    requires r.w > 0 && r.h > 0 && o.w > 0 && o.h > 0
    ensures MaskCollide(OpaqueBody(r), OpaqueBody(o)) <==> r.Collides(o)
  {
    if MaskCollide(OpaqueBody(r), OpaqueBody(o)) {
      MaskCollideNeedsRectCollide(OpaqueBody(r), OpaqueBody(o));
    }
    if r.Collides(o) {
      var px := if r.x < o.x then o.x - r.x else 0;
      var py := if r.y < o.y then o.y - r.y else 0;
      OpaqueHas(r.w, r.h, px, py);
      OpaqueHas(o.w, o.h, px + r.x - o.x, py + r.y - o.y);
    }
  }

  lemma OpaqueBlocked(r: Rect, o: Rect)
    requires r.w > 0 && r.h > 0 && o.w > 0 && o.h > 0
    ensures Blocked(OpaqueBody(r), [OpaqueBody(o)]) <==> r.Collides(o)
  {
    OpaqueCollide(r, o);
    assert [OpaqueBody(o)][0] == OpaqueBody(o);
  }

  /** One step of an upward retreat of an opaque body towards a single opaque obstacle. */
  lemma OpaqueRetreatUp(r: Rect, o: Rect)
    requires r.w > 0 && r.h > 0 && o.w > 0 && o.h > 0
    ensures r.Collides(o) ==>
      Retreats(OpaqueBody(r), [OpaqueBody(o)], Y, -1) == 1 + Retreats(OpaqueBody(r.Move(0, -1)), [OpaqueBody(o)], Y, -1)
    ensures !r.Collides(o) ==> Retreats(OpaqueBody(r), [OpaqueBody(o)], Y, -1) == 0
  {
    OpaqueBlocked(r, o);
    if r.Collides(o) {
      RetreatsUnfold(OpaqueBody(r), [OpaqueBody(o)], Y, -1);
      assert Body(r.Shift(Y, -1), Opaque(r.w, r.h)) == OpaqueBody(r.Move(0, -1));
    } else {
      RetreatsZero(OpaqueBody(r), [OpaqueBody(o)], Y, -1);
    }
  }

  /** An opaque body whose columns overlap an opaque obstacle's and whose top
      is above the obstacle's bottom retreats upwards exactly until its bottom
      edge meets the obstacle's top edge. */
  lemma {:induction false} OpaqueRetreatsUp(r: Rect, o: Rect)
    requires r.w > 0 && r.h > 0 && o.w > 0 && o.h > 0
    requires r.x < o.x + o.w && o.x < r.x + r.w
    requires r.y < o.y + o.h
    ensures Retreats(OpaqueBody(r), [OpaqueBody(o)], Y, -1) == if r.Bottom() > o.y then r.Bottom() - o.y else 0
    decreases r.Bottom() - o.y
  {
    OpaqueRetreatUp(r, o);
    if r.Collides(o) {
      OpaqueRetreatsUp(r.Move(0, -1), o);
    }
  }

  /** An 8 by 8 opaque body at y = 0 moved 5 pixels down towards an 8 by 8 opaque
      obstacle at y = 10: the destination rect overlaps the obstacle's, the body
      retreats 3 pixels and stops touching it at y = 2. */
  lemma ShortDropStopsOnTop()
    ensures Resolve(OpaqueBody(Rect(0, 0, 8, 8)), (0, 5), Y, [OpaqueBody(Rect(0, 10, 8, 8))])
            == (Rect(0, 2, 8, 8), false)
  {
    assert Candidates(Rect(0, 5, 8, 8), [OpaqueBody(Rect(0, 10, 8, 8))]) == [OpaqueBody(Rect(0, 10, 8, 8))];
    OpaqueRetreatsUp(Rect(0, 5, 8, 8), Rect(0, 10, 8, 8));
  }

  /** The same body moved 20 pixels down: the destination rect lies past the
      obstacle's rect, so the obstacle is never examined and the body passes
      through it. */
  lemma LongDropTunnels()
    ensures Resolve(OpaqueBody(Rect(0, 0, 8, 8)), (0, 20), Y, [OpaqueBody(Rect(0, 10, 8, 8))])
            == (Rect(0, 20, 8, 8), true)
  {
    assert Candidates(Rect(0, 20, 8, 8), [OpaqueBody(Rect(0, 10, 8, 8))]) == [];
    ResolveFree(OpaqueBody(Rect(0, 0, 8, 8)), (0, 20), Y, [OpaqueBody(Rect(0, 10, 8, 8))]);
  }

  /** A body that already overlaps an obstacle retreats past its own start: a
      one-pixel move down from y = 0 into an obstacle at y = 4 ends at y = -4. */
  lemma RetreatPassesStart()
    ensures Resolve(OpaqueBody(Rect(0, 0, 8, 8)), (0, 1), Y, [OpaqueBody(Rect(0, 4, 8, 8))])
            == (Rect(0, -4, 8, 8), false)
  {
    assert Candidates(Rect(0, 1, 8, 8), [OpaqueBody(Rect(0, 4, 8, 8))]) == [OpaqueBody(Rect(0, 4, 8, 8))];
    OpaqueRetreatsUp(Rect(0, 1, 8, 8), Rect(0, 4, 8, 8));
  }
}
