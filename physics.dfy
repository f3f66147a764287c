/** `PhysicsMixin`: the falling state of a body, the velocity computed from the
    clock while it falls, and the one-pixel probe that starts a fall. The clock
    (`pygame.time.get_ticks`, in milliseconds) is a parameter. */
module Physics {
  import opened Geometry
  import opened Collision
  import opened Entities

  /** `self.grav`. */
  const Grav: real := 10.0

  /** The fields `physics_update` reads and writes. */
  datatype FallState = FallState(fall: bool, time: Option<int>, yVel: real, yVelI: real)

  /** Python truthiness of `self.time`: `None` and `0` are both false. */
  predicate Truthy(t: Option<int>) {
    t.Some? && t.value != 0
  }

  /** `grav * ((time_now - time) / 1000.0) + y_vel_i`: with a gravity of 10 the
      body gains one unit of velocity every 100 milliseconds. */
  function Velocity(start: int, now: int, yVelI: real): (v: real)
    ensures (v - yVelI) * 100.0 == (now - start) as real
  {
    Grav * ((now - start) as real / 1000.0) + yVelI
  }

  /** One `physics_update` at clock `now`. It never changes `fall`; a falling
      body keeps its initial velocity and has its clock set afterwards; a body
      at rest has every other field cleared. */
  function Step(s: FallState, now: int): (r: FallState)
    ensures r.fall == s.fall
    ensures r.fall ==> r.time.Some? && r.yVelI == s.yVelI
    ensures !r.fall ==> r.time == None && r.yVel == 0.0 && r.yVelI == 0.0
  {
    if s.fall then
      var t := if Truthy(s.time) then s.time.value else now;
      FallState(true, Some(t), Velocity(t, now, s.yVelI), s.yVelI)
    else FallState(false, None, 0.0, 0.0)
  }

  /** Not falling: the clock is forgotten and both velocities are zero. */
  lemma StepGrounded(s: FallState, now: int)
    requires !s.fall
    ensures Step(s, now) == FallState(false, None, 0.0, 0.0)
  {
  }

  /** Falling: the first tick (clock not yet set, or set to 0) captures the
      clock; later ticks keep it; the initial velocity is never changed. */
  lemma StepFalling(s: FallState, now: int)
    requires s.fall
    ensures Step(s, now).fall && Step(s, now).yVelI == s.yVelI
    ensures !Truthy(s.time) ==> Step(s, now).time == Some(now) && Step(s, now).yVel == s.yVelI
    ensures Truthy(s.time) ==> Step(s, now).time == s.time
    ensures Step(s, now).yVel == Velocity(Step(s, now).time.value, now, s.yVelI)
  {
  }

  /** Velocity is not negative once the fall has started, and does not decrease
      as the clock advances. */
  lemma VelocityGrows(start: int, now: int, later: int, yVelI: real)
    requires start <= now <= later && 0.0 <= yVelI
    ensures 0.0 <= Velocity(start, now, yVelI) <= Velocity(start, later, yVelI)
  {
  }

  /** A second update at the same clock changes nothing, including when the
      clock reads 0 and is captured anew. */
  lemma StepSameClock(s: FallState, now: int)
    ensures Step(Step(s, now), now) == Step(s, now)
  {
    if s.fall {
      StepFalling(s, now);
      StepFalling(Step(s, now), now);
    }
  }

  /** Over two falling ticks with the clock moving forward the velocity does not
      decrease, including when the first tick captured a clock of 0 and the
      second captures the clock again. */
  lemma FallingTicksAccelerate(s: FallState, now: int, later: int)
    requires s.fall && 0.0 <= s.yVelI && now <= later
    requires Truthy(s.time) ==> s.time.value <= now
    ensures 0.0 <= Step(s, now).yVel <= Step(Step(s, now), later).yVel
  {
    var s1 := Step(s, now);
    StepFalling(s, now);
    StepFalling(s1, later);
    VelocityGrows(s1.time.value, now, later, s.yVelI);
    if !Truthy(s1.time) {
      VelocityGrows(later, later, later, s.yVelI);
    }
  }

  /** The physics fields of a body; `sprite` is the body whose rect the probe moves. */
  class Falling {
    const sprite: Sprite
    var fall: bool
    var time: Option<int>
    var yVel: real
    var yVelI: real
    var xVel: real

    function State(): FallState
      reads this
    {
      FallState(fall, time, yVel, yVelI)
    }

    /** `PhysicsMixin.__init__`. */
    constructor (sprite: Sprite)
      ensures this.sprite == sprite
      ensures !fall && time == None && yVel == 0.0 && yVelI == 0.0 && xVel == 0.0
    {
      this.sprite := sprite;
      fall := false;
      time := None;
      yVel := 0.0;
      yVelI := 0.0;
      xVel := 0.0;
    }

    /** `physics_update()` at clock `now`. */
    method PhysicsUpdate(now: int)
      modifies this`time, this`yVel, this`yVelI
      ensures State() == Step(old(State()), now)
    {
      if fall {
        if !Truthy(time) {
          time := Some(now);
        }
        yVel := Grav * ((now - time.value) as real / 1000.0) + yVelI;
      } else {
        time := None;
        yVel := 0.0;
        yVelI := 0.0;
      }
    }

    /** `check_falling(obstacles)`: enter the falling state when the probe one
        pixel down finds no support. */
    method CheckFalling(obstacles: seq<Sprite>)
      requires sprite.Valid() && AllValidSprites(obstacles) && Distinct(obstacles)
      modifies this`fall, sprite`rect
      ensures sprite.rect == old(sprite.rect)
      ensures AllValid(OthersOf(sprite, obstacles))
      ensures fall <==> old(fall) || !Supported(sprite.AsBody(), OthersOf(sprite, obstacles))
    {
      var supported := sprite.ProbeBelow(obstacles);
      ghost var body, others := sprite.AsBody(), OthersOf(sprite, obstacles);
      if !supported {
        fall := true;
      }
      assert sprite.AsBody() == body && OthersOf(sprite, obstacles) == others;
    }
  }
}
