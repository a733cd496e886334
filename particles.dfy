/**
 * One droplet of the waterfall and the integer bookkeeping around it: the
 * record `struct Particle` (waterfall.h), the integer fields `create_particle`
 * fills in, the age step of `draw_particle`, the two expiry tests the frame
 * steps use, and the spawn count computed at the start of each frame.
 *
 * The floating-point attributes of a particle (position, speed, direction,
 * acceleration, colour, opacity, diameter) are carried as a value of the opaque
 * type `Attributes`, which no operation of this model inspects or changes.
 */
module Particles {

  /**
   * The floating-point attributes of `struct Particle` (position, speed,
   * direction, acceleration, colour, opacity, diameter): the bookkeeping
   * neither inspects nor changes them, so they are an opaque value.
   */
  type Attributes(==, !new)

  /** `struct Particle`: the two integer fields the pool bookkeeping uses, plus the rest. */
  datatype Particle = Particle(age: int, lifespan: int, attributes: Attributes)

  /**
   * The integer part of `create_particle`: a new particle starts at age 0 and
   * lives for `maxAge` steps (the global `max_age` at creation time).
   */
  function NewParticle(maxAge: int, attributes: Attributes): (p: Particle)
    ensures p.age == 0 && p.lifespan == maxAge
    ensures p.attributes == attributes
  {
    Particle(0, maxAge, attributes)
  }

  /** The age step of `draw_particle`: the age rises by exactly one, nothing else of the bookkeeping changes. */
  function Advance(p: Particle): (q: Particle)
    ensures q.age == p.age + 1 && q.age > p.age
    ensures q.lifespan == p.lifespan && q.attributes == p.attributes
  {
    p.(age := p.age + 1)
  }

  /**
   * The test of the front-trim loop in `draw_particles`: the particle has
   * outlived its lifespan, so it has at least reached it.
   */
  predicate Expired(p: Particle): (e: bool)
    ensures e ==> p.age >= p.lifespan
  {
    p.age > p.lifespan
  }

  /**
   * The test of the full scan in `draw_particles2`: one more step would take
   * the particle past its lifespan, that is, it has reached its lifespan.
   */
  predicate Dying(p: Particle): (d: bool)
    ensures d <==> p.age >= p.lifespan
  {
    p.age + 1 > p.lifespan
  }

  /** A particle that is not dying is still live after its age step, and a dying one is expired after it. */
  lemma AdvanceExpiresExactlyTheDying(p: Particle)
    ensures Dying(p) <==> Expired(Advance(p))
    ensures !Dying(p) ==> !Expired(p)
  {
  }

  /** Conversion of a float to an int in C: truncation toward zero. */
  function TruncateToInt(x: real): (n: int)
    ensures 0.0 <= x ==> 0 <= n && n as real <= x < n as real + 1.0
    ensures x < 0.0 ==> n <= 0 && n as real - 1.0 < x <= n as real
  {
    if x >= 0.0 then x.Floor else -((-x).Floor)
  }

  /**
   * The spawn count of a frame: the mean plus the random fraction `r` times
   * the variance, stored in an `int`, so the sum is truncated toward zero.
   * The sum is taken in exact real arithmetic, not in `float`.
   */
  function SpawnCount(mean: int, variance: real, r: real): (n: int)
    ensures var x := mean as real + r * variance;
      0.0 <= x ==> 0 <= n && n as real <= x < n as real + 1.0
  {
    TruncateToInt(mean as real + r * variance)
  }

  /**
   * With a non-negative mean and variance and a fraction in [0, 1] (what
   * `rand() / RAND_MAX` yields), the spawn count lies between the mean and
   * the mean plus the variance.
   */
  lemma SpawnCountBounds(mean: int, variance: real, r: real)
    requires 0 <= mean && 0.0 <= variance && 0.0 <= r <= 1.0
    ensures mean <= SpawnCount(mean, variance, r)
    ensures SpawnCount(mean, variance, r) as real <= mean as real + variance
  {
    var x := mean as real + r * variance;
    assert 0.0 <= r * variance <= variance by {
      if variance > 0.0 {
        assert r * variance <= 1.0 * variance;
      }
    }
    assert mean as real <= x <= mean as real + variance;
  }
}
