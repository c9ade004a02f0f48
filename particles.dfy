/**
 * Explosion particles. Only a particle's integer life is modelled; its
 * position, velocity, size and colour are floating-point or cosmetic.
 */
module Particles {
  import opened Config
  import opened Filtering

  /** A life as the particle constructor draws it: 30 plus a value in [0, 40). */
  predicate FreshLife(life: int) {
    MinLife <= life < MinLife + LifeRange
  }

  /** The life after one particle update. */
  function Decrement(life: int): int {
    life - 1
  }

  /** A particle is kept while its life is positive. */
  predicate Alive(life: int) {
    life > 0
  }

  /** The lives left after every particle is updated once and the dead are removed. */
  function Aged(lives: seq<int>): (r: seq<int>)
    ensures |r| <= |lives|
    ensures forall k :: 0 <= k < |r| ==> r[k] > 0
  {
    MapFilter(lives, Decrement, Alive)
  }

  /**
   * Aging lowers every life by exactly one and removes exactly the particles
   * whose life is no longer positive; the others stay in their relative order.
   */
  lemma AgedExactly(lives: seq<int>) returns (idx: seq<nat>)
    ensures |idx| == |Aged(lives)|
    ensures forall k :: 0 <= k < |idx| ==> idx[k] < |lives| && Aged(lives)[k] == lives[idx[k]] - 1
    ensures forall k, m :: 0 <= k < m < |idx| ==> idx[k] < idx[m]
    ensures forall j :: 0 <= j < |lives| ==> (j in idx <==> lives[j] > 1)
  {
    assert lives[0..] == lives;
    idx := KeptIndices(lives, Decrement, Alive, 0);
  }

  /** Lives that start below a bound stay below it, and all that remain are positive. */
  lemma {:induction false} AgedBounded(lives: seq<int>, bound: int)
    requires forall l <- lives :: l < bound
    ensures forall l <- Aged(lives) :: 0 < l < bound - 1
    decreases |lives|
  {
    if lives != [] {
      assert forall l <- lives[1..] :: l in lives;
      AgedBounded(lives[1..], bound);
      assert lives[0] in lives;
      assert Aged(lives)
          == (if Alive(Decrement(lives[0])) then [Decrement(lives[0])] else []) + Aged(lives[1..]);
    }
  }

  /**
   * The particle loop of one explosion tick: walking the list from its end,
   * decrement each life and remove the particle when it is no longer positive.
   */
  method AgeParticles(lives: seq<int>) returns (kept: seq<int>)
    ensures kept == Aged(lives)
  {
    kept := lives;
    var i := |lives| - 1;
    while i >= 0
      invariant -1 <= i < |lives|
      invariant kept == lives[..i + 1] + Aged(lives[i + 1..])
    {
      UnfoldAt(lives, i, Decrement, Alive);
      assert kept[i] == lives[i];
      assert kept[..i] == lives[..i];
      assert kept[i + 1..] == Aged(lives[i + 1..]);
      var life := kept[i] - 1;
      if life <= 0 {
        kept := kept[..i] + kept[i + 1..];
      } else {
        kept := kept[..i] + [life] + kept[i + 1..];
      }
      i := i - 1;
    }
    assert lives[0..] == lives;
  }
}
