/** Integer rectangles and pixel masks: the parts of pygame's Rect and Mask
    that the game's movement and collision code relies on. */
module Geometry {

  datatype Option<T> = None | Some(value: T)

  /** The two coordinates of a rectangle's position; `X` is index 0 and `Y` index 1. */
  datatype Axis = X | Y

  /** The other axis. */
  function Other(a: Axis): Axis { if a == X then Y else X }

  /** The component of a displacement `(dx, dy)` along an axis (`offset[index]`). */
  function Component(offset: (int, int), a: Axis): int { if a == X then offset.0 else offset.1 }

  /** A pygame Rect whose size is the size of an image (never negative). */
  datatype Rect = Rect(x: int, y: int, w: nat, h: nat) {

    function Get(a: Axis): int { if a == X then x else y }

    function Size(a: Axis): nat { if a == X then w else h }

    function Right(): int { x + w }

    function Bottom(): int { y + h }

    /** `rect.centerx` and `rect.centery`: C integer division of a size that is never negative. */
    function CenterX(): int { x + w / 2 }

    function CenterY(): int { y + h / 2 }

    /** `rect.move(dx, dy)`. */
    function Move(dx: int, dy: int): Rect { Rect(x + dx, y + dy, w, h) }

    /** `rect[index] += d`. */
    function Shift(a: Axis, d: int): (r: Rect)
      ensures r.Get(a) == Get(a) + d && r.Get(Other(a)) == Get(Other(a))
      ensures r.w == w && r.h == h
    {
      if a == X then Move(d, 0) else Move(0, d)
    }

    /** `rect.colliderect(o)` by the half-open overlap rule. Two rects of
        positive size that satisfy it share a pixel: the one at the larger of
        the two left edges and the larger of the two top edges. A rect of size
        zero may satisfy it too, where pygame 2 reports no overlap; no decision
        of the resolver depends on that difference, because a zero-size body
        has an empty mask and `MaskCollide` needs an opaque pixel on both sides. */
    predicate Collides(o: Rect): (r: bool)
      ensures r && 0 < w && 0 < h && 0 < o.w && 0 < o.h ==>
                var px, py := if x < o.x then o.x else x, if y < o.y then o.y else y;
                ContainsPoint(px, py) && o.ContainsPoint(px, py)
    {
      x < o.x + o.w && o.x < x + w && y < o.y + o.h && o.y < y + h
    }

    /** `rect.collidepoint(px, py)`: left and top edges inside, right and bottom
        edges outside, so a rect of size zero contains no point. */
    predicate ContainsPoint(px: int, py: int): (r: bool)
      ensures r ==> 0 < w && 0 < h
    {
      x <= px < x + w && y <= py < y + h
    }
  }

  /** A rectangle of the given size with the given centre, as pygame sets
      `rect.center` on a fresh `image.get_rect()`. */
  function Recenter(cx: int, cy: int, w: nat, h: nat): (r: Rect)
    ensures r.w == w && r.h == h
    ensures r.CenterX() == cx && r.CenterY() == cy
  {
    Rect(cx - w / 2, cy - h / 2, w, h)
  }

  type Pixel = (int, int)

  /** The opaque pixels of an image, as offsets from its top-left corner. */
  type Mask = set<Pixel>

  /** A mask made from an image of size `w` by `h` only has bits inside that image. */
  predicate Fits(m: Mask, w: nat, h: nat) {
    forall p :: p in m ==> 0 <= p.0 < w && 0 <= p.1 < h
  }

  /** What collision tests see of a sprite: its rect and its mask. */
  datatype Body = Body(rect: Rect, mask: Mask) {
    predicate Valid() { Fits(mask, rect.w, rect.h) }
  }

  /** `pygame.sprite.collide_mask(a, b)`: some opaque pixel of `a`, translated by the
      difference of the two positions, is an opaque pixel of `b`. */
  predicate MaskCollide(a: Body, b: Body): (r: bool)
    ensures r ==> a.mask != {} && b.mask != {}
  {
    exists p :: p in a.mask && (p.0 + a.rect.x - b.rect.x, p.1 + a.rect.y - b.rect.y) in b.mask
  }

  /** A rect of either sprite containing a pixel of the other's rect is enough
      for `colliderect`, whatever the sizes. */
  lemma SharedPixelCollides(r: Rect, o: Rect, px: int, py: int)
    requires r.ContainsPoint(px, py) && o.ContainsPoint(px, py)
    ensures r.Collides(o) && o.Collides(r)
  {
  }

  /** A sprite with an opaque pixel always overlaps itself at pixel level. */
  lemma SelfCollides(b: Body)
    requires b.mask != {}
    ensures MaskCollide(b, b)
  {
    var p :| p in b.mask;
    assert (p.0 + b.rect.x - b.rect.x, p.1 + b.rect.y - b.rect.y) == p;
  }

  /** Masks lie inside their rects, so a pixel-level collision is also a rect collision. */
  lemma MaskCollideNeedsRectCollide(a: Body, b: Body)
    requires a.Valid() && b.Valid()
    requires MaskCollide(a, b)
    ensures a.rect.Collides(b.rect) && b.rect.Collides(a.rect)
  {
    var p :| p in a.mask && (p.0 + a.rect.x - b.rect.x, p.1 + a.rect.y - b.rect.y) in b.mask;
    var q := (p.0 + a.rect.x - b.rect.x, p.1 + a.rect.y - b.rect.y);
    assert 0 <= q.0 < b.rect.w && 0 <= q.1 < b.rect.h;
  }

  /** Pixel collision does not depend on which of the two sprites is asking. */
  lemma MaskCollideSymmetric(a: Body, b: Body)
    ensures MaskCollide(a, b) <==> MaskCollide(b, a)
  {
    if MaskCollide(a, b) {
      var p :| p in a.mask && (p.0 + a.rect.x - b.rect.x, p.1 + a.rect.y - b.rect.y) in b.mask;
      var q := (p.0 + a.rect.x - b.rect.x, p.1 + a.rect.y - b.rect.y);
      assert (q.0 + b.rect.x - a.rect.x, q.1 + b.rect.y - a.rect.y) == p;
    }
    if MaskCollide(b, a) {
      var p :| p in b.mask && (p.0 + b.rect.x - a.rect.x, p.1 + b.rect.y - a.rect.y) in a.mask;
      var q := (p.0 + b.rect.x - a.rect.x, p.1 + b.rect.y - a.rect.y);
      assert (q.0 + a.rect.x - b.rect.x, q.1 + a.rect.y - b.rect.y) == p;
    }
  }
}
