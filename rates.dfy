/**
 * The numeric formulas of a step: the number of contacts sampled from a
 * species pool, the recovery chance of an infected host, and the death
 * threshold of a host carrying some number of strains. Rates are exact reals.
 */
module Rates {

  /** Python's int() on a float: truncation toward zero. */
  function Truncate(x: real): (r: int)
    ensures x >= 0.0 ==> 0 <= r && r as real <= x < r as real + 1.0
    ensures x < 0.0 ==> r <= 0 && r as real - 1.0 < x <= r as real
  {
    if x >= 0.0 then x.Floor else -((-x).Floor)
  }

  /** Contacts one host samples from a pool of `population` hosts at contact rate `rate`. */
  function ContactCount(population: nat, rate: real): (r: int)
    ensures 0.0 <= rate ==> 0 <= r
    ensures rate <= 0.0 ==> r <= 0
  {
    Truncate(population as real * rate)
  }

  /** A rate in [0, 1] asks for between none and all of the pool. */
  lemma ContactCountInPool(population: nat, rate: real)
    requires 0.0 <= rate <= 1.0
    ensures 0 <= ContactCount(population, rate) <= population
  {
    var x := population as real * rate;
    assert 0.0 <= x <= population as real;
  }

  /** Recovery chance after `t` steps of infection. */
  function RecoveryChance(recoveryRate: real, t: nat): (r: real)
    ensures t == 0 ==> r == 0.0
    ensures 0.0 <= recoveryRate ==> 0.0 <= r
  {
    recoveryRate * t as real
  }

  /** The recovery chance does not decrease the longer a host has been infected. */
  lemma RecoveryChanceMonotone(recoveryRate: real, t: nat, t': nat)
    requires 0.0 <= recoveryRate && t <= t'
    ensures 0.0 <= RecoveryChance(recoveryRate, t) <= RecoveryChance(recoveryRate, t')
  {
    assert recoveryRate * (t' as real - t as real) >= 0.0;
  }

  /** How much each carried strain multiplies the death chance: humans and pigs
      1.25, birds and poultry 1.005. */
  function Mortality(species: nat): (m: real)
    ensures m >= 1.0
  {
    if species == 0 then 1.25
    else if species == 1 then 1.25
    else if species == 2 then 1.005
    else 1.005
  }

  /** b to the power k. */
  function Power(b: real, k: nat): (r: real)
    ensures b >= 1.0 ==> r >= 1.0
  {
    if k == 0 then 1.0 else b * Power(b, k - 1)
  }

  lemma {:induction false} PowerMonotone(b: real, k: nat, k': nat)
    requires b >= 1.0 && k <= k'
    ensures 1.0 <= Power(b, k) <= Power(b, k')
    decreases k'
  {
    if k' > 0 {
      if k == k' {
        PowerMonotone(b, k - 1, k - 1);
      } else {
        PowerMonotone(b, k, k' - 1);
      }
      assert Power(b, k') == b * Power(b, k' - 1);
    }
  }

  /** Scaling by a nonnegative factor keeps the order. */
  lemma ScaleMonotone(c: real, x: real, y: real)
    requires 0.0 <= c && x <= y
    ensures c * x <= c * y
  {
    assert c * y - c * x == c * (y - x);
  }

  /** Death chance of a host of `species` carrying `strains` strains. */
  function DeathThreshold(deathRate: real, species: nat, strains: nat): (r: real)
    ensures 0.0 <= deathRate ==> deathRate <= r
    ensures strains == 0 ==> r == deathRate
  {
    var p := Power(Mortality(species), strains);
    assert 0.0 <= deathRate ==> deathRate * p - deathRate == deathRate * (p - 1.0) >= 0.0;
    deathRate * p
  }

  /** Carrying more strains never lowers the death threshold. */
  lemma DeathThresholdMonotone(deathRate: real, species: nat, k: nat, k': nat)
    requires 0.0 <= deathRate && k <= k'
    ensures deathRate <= DeathThreshold(deathRate, species, k) <= DeathThreshold(deathRate, species, k')
  {
    PowerMonotone(Mortality(species), k, k');
    var p, p' := Power(Mortality(species), k), Power(Mortality(species), k');
    ScaleMonotone(deathRate, 1.0, p);
    ScaleMonotone(deathRate, p, p');
  }
}
