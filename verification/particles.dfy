/** The visualizer's particle pool: a list of particles capped at
    `MAX_PARTICLES`, where spawning reuses a dead particle before it grows
    the list, and every frame ages each live particle by one. */
module Particles {
  import opened Options

  const MaxParticles: nat := 75

  /** A pooled particle. Only its remaining life, the life it started with
      and whether it is live are modelled; position, heading, speed, size
      and hue only affect drawing. */
  datatype Particle = Particle(life: real, maxLife: real, active: bool)

  /** A particle as the constructor or `reset` leaves it. */
  function Spawned(life: real): Particle {
    Particle(life, life, true)
  }

  /** The number of live particles in the pool. */
  function ActiveCount(pool: seq<Particle>): (n: nat)
    ensures n <= |pool|
  {
    if pool == [] then 0
    else ActiveCount(pool[..|pool| - 1]) + (if pool[|pool| - 1].active then 1 else 0)
  }

  /** The pool has no dead particle exactly when every particle is counted live. */
  lemma {:induction false} AllActive(pool: seq<Particle>)
    ensures ActiveCount(pool) == |pool| <==> forall j :: 0 <= j < |pool| ==> pool[j].active
  {
    if pool != [] {
      var init := pool[..|pool| - 1];
      AllActive(init);
      assert forall j :: 0 <= j < |init| ==> init[j] == pool[j];
    }
  }

  /** Reviving one dead particle raises the live count by one. */
  lemma {:induction false} ReviveCounts(pool: seq<Particle>, j: nat, p: Particle)
    requires j < |pool| && !pool[j].active && p.active
    ensures ActiveCount(pool[j := p]) == ActiveCount(pool) + 1
    decreases |pool|
  {
    var n := |pool|;
    if j == n - 1 {
      assert pool[j := p][..n - 1] == pool[..n - 1];
    } else {
      assert pool[j := p][..n - 1] == pool[..n - 1][j := p];
      ReviveCounts(pool[..n - 1], j, p);
    }
  }

  /** The index of the first dead particle at or after `from`, if any. */
  function FirstInactive(pool: seq<Particle>, from: nat): (r: Option<nat>)
    requires from <= |pool|
    ensures r.Some? ==>
      (from <= r.value < |pool| && !pool[r.value].active
       && forall k :: from <= k < r.value ==> pool[k].active)
    ensures r.None? ==> forall k :: from <= k < |pool| ==> pool[k].active
    decreases |pool| - from
  {
    if from == |pool| then None
    else if !pool[from].active then Some(from)
    else FirstInactive(pool, from + 1)
  }

  /** One emission: the first dead particle is reset with the given life;
      when none is dead a new particle is pushed. Either way one more
      particle is live, live particles are left alone, the list grows only
      when every particle was already live, and a particle that changes
      has only live particles before it. */
  function Emit(pool: seq<Particle>, life: real): (r: seq<Particle>)
    ensures ActiveCount(r) == ActiveCount(pool) + 1
    ensures |r| == if ActiveCount(pool) < |pool| then |pool| else |pool| + 1
    ensures forall j :: 0 <= j < |pool| && pool[j].active ==> r[j] == pool[j]
    ensures ActiveCount(pool) == |pool| ==> forall j :: 0 <= j < |r| ==> r[j].active
    ensures forall j :: 0 <= j < |r| ==> (j < |pool| && r[j] == pool[j]) || r[j] == Spawned(life)
    ensures forall j :: 0 <= j < |pool| && r[j] != pool[j] ==> forall k :: 0 <= k < j ==> pool[k].active
    ensures Spawned(life) in r
  {
    AllActive(pool);
    match FirstInactive(pool, 0)
    case Some(j) =>
      ReviveCounts(pool, j, Spawned(life));
      assert pool[j := Spawned(life)][j] == Spawned(life);
      pool[j := Spawned(life)]
    case None =>
      assert (pool + [Spawned(life)])[..|pool|] == pool;
      pool + [Spawned(life)]
  }

  /** How many particles a burst of `count` brings to life: none once the
      pool is at the cap, otherwise `count`, but no more than the dead
      particles plus the room left below the cap. */
  function BurstSize(pool: seq<Particle>, count: int): nat {
    if |pool| >= MaxParticles || count <= 0 then 0
    else
      var room := |pool| - ActiveCount(pool) + (MaxParticles - |pool|);
      if count <= room then count else room
  }

  /** `spawnParticles(x, y, count, intensity, hue)`: nothing happens at the
      cap; otherwise up to `count` emissions, stopping early when the list
      reaches the cap. The life of the `i`-th emission (drawn with
      `Math.random()` between 60 and 120 frames) is `lives(i)`. Exactly
      `BurstSize` particles come to life, live ones are untouched, the list
      never passes the cap, it grows only after all dead ones are reused,
      and dead ones are reused from the front: every particle before a
      reused one is live afterwards. */
  method SpawnParticles(pool: seq<Particle>, count: int, lives: nat -> real)
    returns (r: seq<Particle>)
    ensures |pool| >= MaxParticles ==> r == pool
    ensures ActiveCount(r) == ActiveCount(pool) + BurstSize(pool, count)
    ensures |r| <= if |pool| >= MaxParticles then |pool| else MaxParticles
    ensures |pool| <= |r|
    ensures forall j :: 0 <= j < |pool| && pool[j].active ==> r[j] == pool[j]
    ensures |r| > |pool| ==> forall j :: 0 <= j < |r| ==> r[j].active
    ensures forall j :: 0 <= j < |r| && !(j < |pool| && r[j] == pool[j]) ==>
      exists i :: 0 <= i < count && r[j] == Spawned(lives(i))
    ensures |pool| <= |r| && ReusedFromFront(pool, r)
  {
    if |pool| >= MaxParticles {
      return pool;
    }
    var dead := |pool| - ActiveCount(pool);
    r := pool;
    var i := 0;
    while i < count && |r| < MaxParticles
      invariant 0 <= i
      invariant ActiveCount(r) == ActiveCount(pool) + i
      invariant |r| == |pool| + (if i <= dead then 0 else i - dead)
      invariant |r| <= MaxParticles
      invariant forall j :: 0 <= j < |pool| && pool[j].active ==> r[j] == pool[j]
      invariant |r| > |pool| ==> forall j :: 0 <= j < |r| ==> r[j].active
      invariant i <= BurstSize(pool, count)
      invariant FromBurst(pool, r, lives, i)
      invariant ReusedFromFront(pool, r)
      decreases count - i
    {
      if |r| > |pool| {
        AllActive(r);
      }
      EmitKeepsFront(pool, r, lives(i));
      EmitFromBurst(pool, r, lives, i);
      r := Emit(r, lives(i));
      i := i + 1;
    }
  }

  /** Every particle that `r` changed or added is one of the first `n`
      emissions of a burst whose lives are `lives`. */
  predicate FromBurst(pool: seq<Particle>, r: seq<Particle>, lives: nat -> real, n: nat) {
    forall j :: 0 <= j < |r| && !(j < |pool| && r[j] == pool[j]) ==>
      exists i :: 0 <= i < n && r[j] == Spawned(lives(i))
  }

  /** Emission number `n` keeps every changed particle part of the burst. */
  lemma EmitFromBurst(pool: seq<Particle>, r: seq<Particle>, lives: nat -> real, n: nat)
    requires FromBurst(pool, r, lives, n)
    ensures FromBurst(pool, Emit(r, lives(n)), lives, n + 1)
  {
    var e := Emit(r, lives(n));
    forall j | 0 <= j < |e| && !(j < |pool| && e[j] == pool[j])
      ensures exists i :: 0 <= i < n + 1 && e[j] == Spawned(lives(i))
    {
      if j < |r| && e[j] == r[j] {
        var i :| 0 <= i < n && r[j] == Spawned(lives(i));
        assert e[j] == Spawned(lives(i));
      } else {
        assert e[j] == Spawned(lives(n));
      }
    }
  }

  /** Every particle of `pool` that `r` changed has only live particles
      before it in `r`: dead particles were reused from the front. */
  predicate ReusedFromFront(pool: seq<Particle>, r: seq<Particle>)
    requires |pool| <= |r|
  {
    forall k, j :: 0 <= k < j < |pool| && r[j] != pool[j] ==> r[k].active
  }

  /** An emission keeps dead particles reused from the front. */
  lemma EmitKeepsFront(pool: seq<Particle>, r: seq<Particle>, life: real)
    requires |pool| <= |r| && ReusedFromFront(pool, r)
    ensures |pool| <= |Emit(r, life)| && ReusedFromFront(pool, Emit(r, life))
  {
    var e := Emit(r, life);
    forall k, j | 0 <= k < j < |pool| && e[j] != pool[j]
      ensures e[k].active
    {
      if e[j] == r[j] {
        assert r[k].active;
      } else {
        assert r[k].active;
      }
    }
  }

  /** The continuous sparkle emission: when the random draw fires
      (`fire`) and the list is below the cap, one particle with the given
      life is emitted, reusing the first dead one; otherwise nothing
      changes. */
  function Sparkle(pool: seq<Particle>, fire: bool, life: real): (r: seq<Particle>)
    ensures ActiveCount(r) == ActiveCount(pool) + (if fire && |pool| < MaxParticles then 1 else 0)
    ensures |r| <= if |pool| >= MaxParticles then |pool| else MaxParticles
    ensures |pool| <= |r|
    ensures forall j :: 0 <= j < |pool| && pool[j].active ==> r[j] == pool[j]
    ensures !(fire && |pool| < MaxParticles) ==> r == pool
    ensures fire && |pool| < MaxParticles ==> Spawned(life) in r
    ensures forall j :: 0 <= j < |pool| && r[j] != pool[j] ==> forall k :: 0 <= k < j ==> pool[k].active
  {
    if fire && |pool| < MaxParticles then Emit(pool, life) else pool
  }

  // ---------------------------------------------------------------------
  // ageing

  /** `Particle.update`: one frame off the life; a particle whose life
      reaches zero or below is no longer live. So it stays live exactly
      when it was live with more than one frame of life left. */
  function Update(p: Particle): (r: Particle)
    ensures r.life == p.life - 1.0 && r.maxLife == p.maxLife
    ensures r.active <==> p.active && p.life > 1.0
  {
    Particle(p.life - 1.0, p.maxLife, p.active && p.life - 1.0 > 0.0)
  }

  /** One frame of the update loop: only live particles are updated. A dead
      particle is left exactly as it is, and no particle comes to life. */
  function Age(p: Particle): (r: Particle)
    ensures !p.active ==> r == p
    ensures r.active ==> p.active && r.life == p.life - 1.0
    ensures p.active && p.life > 1.0 ==> r.active
  {
    if p.active then Update(p) else p
  }

  /** A particle after `n` frames. */
  function AgeBy(p: Particle, n: nat): Particle
    decreases n
  {
    if n == 0 then p else AgeBy(Age(p), n - 1)
  }

  /** A live particle with life `L` stays live for exactly the frames
      `n < L`: it is live after `n` frames iff its life exceeds `n`, and
      while live it has lost exactly one life per frame. A live particle
      always has life left: it is spawned with a positive life and the
      frame that takes its life to zero also ends it. */
  lemma {:induction false} Lifetime(p: Particle, n: nat)
    requires p.active && p.life > 0.0
    ensures AgeBy(p, n).active <==> p.life > n as real
    ensures AgeBy(p, n).active ==> AgeBy(p, n).life == p.life - n as real
    decreases n
  {
    if n > 0 {
      var q := Age(p);
      if q.active {
        Lifetime(q, n - 1);
      } else {
        DeadStaysDead(q, n - 1);
      }
    }
  }

  /** A dead particle is never revived by ageing. */
  lemma {:induction false} DeadStaysDead(p: Particle, n: nat)
    requires !p.active
    ensures AgeBy(p, n) == p
    decreases n
  {
    if n > 0 {
      DeadStaysDead(Age(p), n - 1);
    }
  }

  /** The update loop over the pool. */
  function AgePool(pool: seq<Particle>): seq<Particle> {
    seq(|pool|, j requires 0 <= j < |pool| => Age(pool[j]))
  }

  /** The update loop keeps the list's length and brings no particle to
      life: the live count can only fall, and dead particles keep their slot
      untouched for reuse. */
  lemma {:induction false} AgePoolNeverRevives(pool: seq<Particle>)
    ensures |AgePool(pool)| == |pool|
    ensures ActiveCount(AgePool(pool)) <= ActiveCount(pool)
    ensures forall j :: 0 <= j < |pool| && !pool[j].active ==> AgePool(pool)[j] == pool[j]
  {
    if pool != [] {
      var init := pool[..|pool| - 1];
      AgePoolNeverRevives(init);
      assert AgePool(pool)[..|pool| - 1] == AgePool(init);
    }
  }
}
