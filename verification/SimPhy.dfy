/**
 The PHY emulator: the inertial temperature it holds, and the delay it sums up in
 unsigned 64-bit arithmetic from a signed jitter draw.
 */
module SimPhy {
  import opened Bits
  import Thermal

  const FEC_PENALTY: nat := 5
  const FEC_RETRY_SPIKE: nat := 500
  const MC_TO_C: nat := 1000

  /** Unsigned 64-bit wrap-around; also the cast of a signed draw. */
  function U64(x: int): nat { x % TWO_64 }

  /** One nanosecond per degree above 40 C. */
  function ThermalJitter(temp: nat): nat {
    if temp > Thermal.JITTER_THRESHOLD then (temp - Thermal.JITTER_THRESHOLD) / MC_TO_C else 0
  }

  /** Nothing up to 40 C, then the number of whole degrees above. */
  lemma JitterExactly(temp: nat)
    ensures temp <= 40000 ==> ThermalJitter(temp) == 0
    ensures temp > 40000 ==> 1000 * ThermalJitter(temp) <= temp - 40000 < 1000 * ThermalJitter(temp) + 1000
  {
  }

  /** `total_delay_ns`, added up as the code adds it up. */
  function TotalDelay(base: nat, jitter: nat, draw: int, temp: nat, retry: bool): nat {
    var randomJitter := if jitter > 0 then draw else 0;
    var total := U64(U64(base + FEC_PENALTY) + U64(randomJitter));
    var total' := U64(total + ThermalJitter(temp));
    U64(total' + (if retry then FEC_RETRY_SPIKE else 0))
  }

  /** What the sum means. */
  function TrueDelay(base: nat, jitter: nat, draw: int, temp: nat, retry: bool): int {
    base + FEC_PENALTY + (if jitter > 0 then draw else 0) + ThermalJitter(temp)
    + (if retry then FEC_RETRY_SPIKE else 0)
  }

  lemma U64Sum(a: int, b: int)
    ensures U64(U64(a) + b) == U64(a + b)
    ensures U64(a + U64(b)) == U64(a + b)
  {
  }

  lemma ModularSum(base: nat, jitter: nat, draw: int, temp: nat, retry: bool)
    ensures TotalDelay(base, jitter, draw, temp, retry) == U64(TrueDelay(base, jitter, draw, temp, retry))
  {
    hide U64, ThermalJitter;
    var r := if jitter > 0 then draw else 0;
    var f := if retry then FEC_RETRY_SPIKE else 0;
    U64Sum(base + FEC_PENALTY, U64(r));
    U64Sum(base + FEC_PENALTY, r);
    U64Sum(base + FEC_PENALTY + r, ThermalJitter(temp));
    U64Sum(base + FEC_PENALTY + r + ThermalJitter(temp), f);
  }

  lemma U64Exact(x: int)
    ensures U64(x) == x <==> 0 <= x < TWO_64
    ensures 0 <= U64(x) < TWO_64
  {
  }

  /** A temperature the thermal invariant allows, a draw the distribution allows. */
  predicate Possible(jitter: nat, draw: int, temp: nat) {
    temp % 5 == 0 && 24990 <= temp <= 89020 && -draw <= jitter && draw <= jitter
  }

  /** Jitter does not exceed the floor, and the largest sum fits in 64 bits. */
  predicate InRange(base: nat, jitter: nat) {
    jitter <= base + FEC_PENALTY && base + FEC_PENALTY + jitter + 49 + FEC_RETRY_SPIKE < TWO_64
  }

  /** The delay is the true one, and within its band. */
  predicate DelayRight(base: nat, jitter: nat, draw: int, temp: nat, retry: bool) {
    && TotalDelay(base, jitter, draw, temp, retry) == TrueDelay(base, jitter, draw, temp, retry)
    && base + FEC_PENALTY - jitter <= TotalDelay(base, jitter, draw, temp, retry)
                                   <= base + FEC_PENALTY + jitter + 49 + FEC_RETRY_SPIKE
  }

  /** Exactly the configurations for which no draw, temperature or retry makes the sum wrap. */
  lemma DelayRightExactly(base: nat, jitter: nat)
    ensures (forall draw, temp, retry :: Possible(jitter, draw, temp) ==>
              DelayRight(base, jitter, draw, temp, retry))
            <==> InRange(base, jitter)
  {
    hide TotalDelay, U64;
    var low: int := jitter;
    low := -low;
    if InRange(base, jitter) {
      forall draw, temp, retry | Possible(jitter, draw, temp)
        ensures DelayRight(base, jitter, draw, temp, retry)
      {
        ModularSum(base, jitter, draw, temp, retry);
        U64Exact(TrueDelay(base, jitter, draw, temp, retry));
      }
    } else if jitter > base + FEC_PENALTY {
      assert Possible(jitter, low, 25000);
      ModularSum(base, jitter, low, 25000, false);
      U64Exact(TrueDelay(base, jitter, low, 25000, false));
      assert !DelayRight(base, jitter, low, 25000, false);
    } else {
      assert Possible(jitter, jitter, 89000);
      ModularSum(base, jitter, jitter, 89000, true);
      U64Exact(TrueDelay(base, jitter, jitter, 89000, true));
      assert !DelayRight(base, jitter, jitter, 89000, true);
    }
  }

  class Phy {
    var baseDelay: nat
    var jitter: nat
    var currentTemp: nat

    constructor (base: nat, jitterInit: nat)
      ensures baseDelay == base && jitter == jitterInit && currentTemp == Thermal.BASE_TEMP
    {
      baseDelay, jitter, currentTemp := base, jitterInit, Thermal.BASE_TEMP;
    }

    method SetConfig(base: nat, newJitter: nat)
      modifies this`baseDelay, this`jitter
      ensures baseDelay == base && jitter == newJitter
    {
      baseDelay, jitter := base, newJitter;
    }

    /** One step of thermal inertia towards `target`. */
    method UpdateThermalLoad(target: nat)
      modifies this`currentTemp
      ensures currentTemp == Thermal.NextTemp(old(currentTemp), target)
    {
      var current := currentTemp;
      if target > current {
        currentTemp := (current + Thermal.HEATING_STEP) % TWO_32;
      } else if target < current {
        currentTemp := (current - Thermal.COOLING_STEP) % TWO_32;
      }
    }

    /** The delay waited for, given the jitter draw and whether FEC retried. */
    method ApplyProtocolDelay(draw: int, retry: bool) returns (total: nat)
      requires -draw <= jitter && draw <= jitter
      ensures total == U64(TrueDelay(baseDelay, jitter, draw, currentTemp, retry))
      ensures InRange(baseDelay, jitter) && Possible(jitter, draw, currentTemp) ==>
                && total == TrueDelay(baseDelay, jitter, draw, currentTemp, retry)
                && var thermal := total - baseDelay - 5 - (if jitter > 0 then draw else 0) - (if retry then 500 else 0);
                   if currentTemp <= 40000 then thermal == 0
                   else 1000 * thermal <= currentTemp - 40000 < 1000 * thermal + 1000
    {
      hide U64;
      var randomJitter := 0;
      if jitter > 0 {
        randomJitter := draw;
      }
      total := U64(U64(baseDelay + FEC_PENALTY) + U64(randomJitter));
      total := U64(total + ThermalJitter(currentTemp));
      total := U64(total + (if retry then FEC_RETRY_SPIKE else 0));
      ModularSum(baseDelay, jitter, draw, currentTemp, retry);
      U64Exact(TrueDelay(baseDelay, jitter, draw, currentTemp, retry));
    }
  }
}
