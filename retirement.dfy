/**
 * What the two frame steps do to the sequence of particles in the pool,
 * stated over values. `draw_particles` trims expired particles from the front,
 * appends the new ones and ages every particle (`FrontTrimFrame`);
 * `draw_particles2` appends the new ones and then scans the list, removing
 * every dying particle and ageing the rest (`ScanFrame`).
 *
 * The functions keep only their length facts as postconditions; what each
 * policy promises about the particles themselves is stated by the lemmas
 * next to it.
 */
module Retirement {
  import opened Particles

  /** The length of the longest prefix of expired particles: what the front-trim loop drops. */
  function TrimCount(ps: seq<Particle>): (k: nat)
    ensures k <= |ps|
  {
    if ps != [] && Expired(ps[0]) then 1 + TrimCount(ps[1..]) else 0
  }

  /** Every particle the trim drops is expired, and the first one it keeps is not. */
  lemma {:induction false} TrimCountStopsAtFirstLive(ps: seq<Particle>)
    ensures forall i :: 0 <= i < TrimCount(ps) ==> Expired(ps[i])
    ensures TrimCount(ps) < |ps| ==> !Expired(ps[TrimCount(ps)])
  {
    if ps != [] && Expired(ps[0]) {
      TrimCountStopsAtFirstLive(ps[1..]);
      forall i | 1 <= i < TrimCount(ps)
        ensures Expired(ps[i])
      {
        assert ps[i] == ps[1..][i - 1];
      }
    }
  }

  /** A prefix of expired particles followed by a live one, or by nothing, is exactly what the trim drops. */
  lemma {:induction false} TrimCountIsFirstLive(ps: seq<Particle>, d: nat)
    requires d <= |ps|
    requires forall i :: 0 <= i < d ==> Expired(ps[i])
    requires d < |ps| ==> !Expired(ps[d])
    ensures TrimCount(ps) == d
  {
    if d > 0 {
      assert Expired(ps[0]);
      forall i | 0 <= i < d - 1
        ensures Expired(ps[1..][i])
      {
        assert ps[1..][i] == ps[i + 1];
      }
      TrimCountIsFirstLive(ps[1..], d - 1);
    }
  }

  /**
   * The front-trim policy: the particles from the first live one on
   * (`FrontTrimDropsExpiredPrefix` states what it drops).
   */
  function FrontTrim(ps: seq<Particle>): (r: seq<Particle>)
    ensures |r| <= |ps|
  {
    ps[TrimCount(ps)..]
  }

  /**
   * What the trim keeps is a suffix of the pool, everything before it is
   * expired, and the new head, if any, is not expired.
   */
  lemma FrontTrimDropsExpiredPrefix(ps: seq<Particle>)
    ensures var r := FrontTrim(ps);
      && r == ps[|ps| - |r|..]
      && (forall i :: 0 <= i < |ps| - |r| ==> Expired(ps[i]))
      && (r == [] || !Expired(r[0]))
  {
    TrimCountStopsAtFirstLive(ps);
  }

  /** Trimming an already trimmed pool drops nothing. */
  lemma FrontTrimIdempotent(ps: seq<Particle>)
    ensures FrontTrim(FrontTrim(ps)) == FrontTrim(ps)
  {
    FrontTrimDropsExpiredPrefix(ps);
    TrimCountIsFirstLive(FrontTrim(ps), 0);
  }

  /**
   * The front-trim policy stops at the first live particle: that particle and
   * every particle behind it survive the trim, in place, so an expired
   * particle behind a live one is kept.
   */
  lemma FrontTrimKeepsExpiredBehindLive(ps: seq<Particle>, i: int, j: int)
    requires 0 <= i <= j < |ps| && !Expired(ps[i])
    ensures TrimCount(ps) <= i
    ensures FrontTrim(ps)[j - TrimCount(ps)] == ps[j]
  {
    TrimCountStopsAtFirstLive(ps);
  }

  /** The age step applied to every particle, in order. */
  function AdvanceAll(ps: seq<Particle>): (r: seq<Particle>)
    ensures |r| == |ps|
  {
    if ps == [] then [] else [Advance(ps[0])] + AdvanceAll(ps[1..])
  }

  /** Each particle takes exactly one age step, in place. */
  lemma {:induction false} AdvanceAllAges(ps: seq<Particle>)
    ensures forall i :: 0 <= i < |ps| ==> AdvanceAll(ps)[i] == Advance(ps[i])
  {
    if ps != [] {
      AdvanceAllAges(ps[1..]);
      forall i | 1 <= i < |ps|
        ensures AdvanceAll(ps)[i] == Advance(ps[i])
      {
        assert AdvanceAll(ps)[i] == AdvanceAll(ps[1..])[i - 1];
      }
    }
  }

  /** Ageing two runs of particles is ageing each of them. */
  lemma {:induction false} AdvanceAllAppend(a: seq<Particle>, b: seq<Particle>)
    ensures AdvanceAll(a + b) == AdvanceAll(a) + AdvanceAll(b)
  {
    if a != [] {
      assert (a + b)[1..] == a[1..] + b;
      AdvanceAllAppend(a[1..], b);
    } else {
      assert a + b == b;
    }
  }

  /** The number of particles a frame creates: `num_new_particles` when positive, otherwise none. */
  function SpawnTotal(numNew: int): (n: nat)
    ensures numNew <= 0 ==> n == 0
    ensures numNew > 0 ==> n == numNew
  {
    if numNew > 0 then numNew else 0
  }

  /**
   * The particles a frame creates, in creation order. `attributes(i)` stands
   * for the random attributes `create_particle` draws for the i-th of them.
   */
  function Spawned(numNew: int, maxAge: int, attributes: nat -> Attributes): (r: seq<Particle>)
    ensures |r| == SpawnTotal(numNew)
  {
    if numNew <= 0 then []
    else Spawned(numNew - 1, maxAge, attributes) + [NewParticle(maxAge, attributes(numNew - 1))]
  }

  /** The i-th new particle starts at age 0 with lifespan `maxAge` and the i-th attributes drawn. */
  lemma {:induction false} SpawnedAreNew(numNew: int, maxAge: int, attributes: nat -> Attributes)
    ensures forall i :: 0 <= i < SpawnTotal(numNew) ==>
      Spawned(numNew, maxAge, attributes)[i] == NewParticle(maxAge, attributes(i))
  {
    if numNew > 0 {
      SpawnedAreNew(numNew - 1, maxAge, attributes);
    }
  }

  /** The particles of the pool after one `draw_particles` frame. */
  function FrontTrimFrame(ps: seq<Particle>, numNew: int, maxAge: int, attributes: nat -> Attributes): (r: seq<Particle>)
    ensures |r| == |FrontTrim(ps)| + SpawnTotal(numNew)
  {
    AdvanceAll(FrontTrim(ps) + Spawned(numNew, maxAge, attributes))
  }

  /**
   * After a `draw_particles` frame the survivors of the trim come first, each
   * one step older, followed by exactly the new particles, in creation order,
   * each one step older than a new particle.
   */
  lemma FrontTrimFrameShape(ps: seq<Particle>, numNew: int, maxAge: int, attributes: nat -> Attributes)
    ensures var r := FrontTrimFrame(ps, numNew, maxAge, attributes);
      var kept := FrontTrim(ps);
      && |r| == |kept| + SpawnTotal(numNew)
      && (forall i :: 0 <= i < |kept| ==> r[i] == Advance(kept[i]))
      && (forall i :: |kept| <= i < |r| ==> r[i] == Advance(NewParticle(maxAge, attributes(i - |kept|))))
  {
    var kept := FrontTrim(ps);
    var born := Spawned(numNew, maxAge, attributes);
    AdvanceAllAppend(kept, born);
    AdvanceAllAges(kept);
    AdvanceAllAges(born);
    SpawnedAreNew(numNew, maxAge, attributes);
  }

  /**
   * The full-scan policy, particle by particle: a dying particle is removed,
   * every other one is aged by one step.
   */
  function Sweep(ps: seq<Particle>): (r: seq<Particle>)
    ensures |r| <= |ps|
  {
    if ps == [] then []
    else (if Dying(ps[0]) then [] else [Advance(ps[0])]) + Sweep(ps[1..])
  }

  /** No particle the scan leaves is expired. */
  lemma {:induction false} SweepLeavesNoExpired(ps: seq<Particle>)
    ensures forall i :: 0 <= i < |Sweep(ps)| ==> !Expired(Sweep(ps)[i])
  {
    if ps != [] {
      SweepLeavesNoExpired(ps[1..]);
      AdvanceExpiresExactlyTheDying(ps[0]);
      var head := if Dying(ps[0]) then [] else [Advance(ps[0])];
      forall i | 0 <= i < |Sweep(ps)|
        ensures !Expired(Sweep(ps)[i])
      {
        if i >= |head| {
          assert Sweep(ps)[i] == Sweep(ps[1..])[i - |head|];
        }
      }
    }
  }

  /** The number of particles the full scan removes: what it adds to `particles_removed`. */
  function DeathCount(ps: seq<Particle>): (n: nat)
    ensures n + |Sweep(ps)| == |ps|
  {
    if ps == [] then 0
    else (if Dying(ps[0]) then 1 else 0) + DeathCount(ps[1..])
  }

  /** The particles that are not dying, in their order: an independent statement of what the scan keeps. */
  function Survivors(ps: seq<Particle>): (r: seq<Particle>)
    ensures forall p :: p in r <==> p in ps && !Dying(p)
  {
    if ps == [] then []
    else (if Dying(ps[0]) then [] else [ps[0]]) + Survivors(ps[1..])
  }

  /** The scan keeps exactly the survivors, in order, each aged by one step. */
  lemma {:induction false} SweepIsAgedSurvivors(ps: seq<Particle>)
    ensures Sweep(ps) == AdvanceAll(Survivors(ps))
  {
    if ps != [] {
      SweepIsAgedSurvivors(ps[1..]);
      var head := if Dying(ps[0]) then [] else [ps[0]];
      AdvanceAllAppend(head, Survivors(ps[1..]));
      assert AdvanceAll(head) == if Dying(ps[0]) then [] else [Advance(ps[0])];
    }
  }

  /** Scanning a list in two parts is scanning each part: the scan handles every particle on its own. */
  lemma {:induction false} SweepAppend(a: seq<Particle>, b: seq<Particle>)
    ensures Sweep(a + b) == Sweep(a) + Sweep(b)
    ensures DeathCount(a + b) == DeathCount(a) + DeathCount(b)
  {
    if a != [] {
      assert (a + b)[1..] == a[1..] + b;
      SweepAppend(a[1..], b);
    } else {
      assert a + b == b;
    }
  }

  /** A pool whose particles are all dying is emptied by the scan, and each of them is counted. */
  lemma {:induction false} SweepAllDying(ps: seq<Particle>)
    requires forall i :: 0 <= i < |ps| ==> Dying(ps[i])
    ensures Sweep(ps) == [] && DeathCount(ps) == |ps|
  {
    if ps != [] {
      assert forall i :: 0 <= i < |ps| - 1 ==> ps[1..][i] == ps[i + 1];
      SweepAllDying(ps[1..]);
    }
  }

  /** A pool in which nothing is dying loses nothing to the scan: every particle just ages. */
  lemma {:induction false} SweepNoneDying(ps: seq<Particle>)
    requires forall i :: 0 <= i < |ps| ==> !Dying(ps[i])
    ensures Sweep(ps) == AdvanceAll(ps) && DeathCount(ps) == 0
  {
    if ps != [] {
      assert forall i :: 0 <= i < |ps| - 1 ==> ps[1..][i] == ps[i + 1];
      SweepNoneDying(ps[1..]);
    }
  }

  /**
   * The particles a scan loop leaves: the full scan when the loop starts at
   * a node, the particles unchanged when it starts at `null`.
   */
  function ScanFrom(started: bool, ps: seq<Particle>): seq<Particle>
  {
    if started then Sweep(ps) else ps
  }

  /** What a scan loop adds to `particles_removed`. */
  function ScanFromDeaths(started: bool, ps: seq<Particle>): nat
  {
    if started then DeathCount(ps) else 0
  }

  /**
   * The particles of the pool after one `draw_particles2` frame. The scan
   * starts from the head taken before spawning: when the pool was empty it
   * reaches nothing, and the new particles stay at age 0 for this frame.
   */
  function ScanFrame(ps: seq<Particle>, numNew: int, maxAge: int, attributes: nat -> Attributes): (r: seq<Particle>)
    ensures |r| <= |ps| + SpawnTotal(numNew)
  {
    ScanFrom(ps != [], ps + Spawned(numNew, maxAge, attributes))
  }

  /** What a `draw_particles2` frame adds to `particles_removed`. */
  function ScanFrameDeaths(ps: seq<Particle>, numNew: int, maxAge: int, attributes: nat -> Attributes): (n: nat)
    ensures n + |ScanFrame(ps, numNew, maxAge, attributes)| == |ps| + SpawnTotal(numNew)
  {
    ScanFromDeaths(ps != [], ps + Spawned(numNew, maxAge, attributes))
  }

  /**
   * After a `draw_particles2` frame the pool grew by the new particles less
   * the number counted as removed, and no particle is expired (on an empty
   * pool, where the new particles are not scanned, provided `maxAge` is not
   * negative). On a non-empty pool the old and the new particles are scanned
   * alike; on an empty one the new particles are all that is left.
   */
  lemma ScanFrameRetires(ps: seq<Particle>, numNew: int, maxAge: int, attributes: nat -> Attributes)
    ensures var r := ScanFrame(ps, numNew, maxAge, attributes);
      && |r| + ScanFrameDeaths(ps, numNew, maxAge, attributes) == |ps| + SpawnTotal(numNew)
      && (ps != [] || 0 <= maxAge ==> forall i :: 0 <= i < |r| ==> !Expired(r[i]))
      && (ps != [] ==> r == Sweep(ps) + Sweep(Spawned(numNew, maxAge, attributes)))
      && (ps == [] ==> r == Spawned(numNew, maxAge, attributes))
  {
    var born := Spawned(numNew, maxAge, attributes);
    if ps != [] {
      SweepAppend(ps, born);
      SweepLeavesNoExpired(ps + born);
    } else {
      assert ps + born == born;
      SpawnedAreNew(numNew, maxAge, attributes);
    }
  }
}
