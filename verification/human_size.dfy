/**
  Unit choice of the human-readable size display: binary units from bytes up
  to pebibytes, the last unit absorbing every larger value.
 */
module HumanSize {

  datatype Unit = B | KiB | MiB | GiB | TiB | PiB
  {
    /** The power of 1024 this unit stands for. */
    function Exponent(): nat {
      match this
      case B => 0
      case KiB => 1
      case MiB => 2
      case GiB => 3
      case TiB => 4
      case PiB => 5
    }
  }

  /** The units in the order the display tries them. */
  const Units: seq<Unit> := [B, KiB, MiB, GiB, TiB, PiB]

  function Pow1024(k: nat): (p: nat)
    ensures p >= 1
  {
    if k == 0 then 1 else 1024 * Pow1024(k - 1)
  }

  /** Scaling by a positive factor preserves the comparison with 1024. */
  lemma BelowUnitLimit(m: real, p: real, x: real)
    requires p > 0.0 && m * p == x
    ensures m < 1024.0 <==> x < 1024.0 * p
  {
  }

  /** Dividing the magnitude by 1024 moves the scale one unit up. */
  lemma ScaleUp(m: real, k: nat, x: real)
    requires m * Pow1024(k) as real == x
    ensures (m / 1024.0) * Pow1024(k + 1) as real == x
  {
  }

  /**
    Walks the units in order, dividing the size by 1024 each time, and stops at
    the first unit where the remaining value is below 1024, or at PiB.
    The returned unit is the one whose power of 1024 is the largest not above
    the size, capped at PiB (bytes for sizes below 1024, negative ones included),
    and the magnitude is the size expressed in that unit.
   */
  method HumanReadableUnit(size: int) returns (magnitude: real, unit: Unit)
    ensures unit != B ==> Pow1024(unit.Exponent()) <= size
    ensures unit != PiB ==> size < Pow1024(unit.Exponent() + 1)
    ensures magnitude * Pow1024(unit.Exponent()) as real == size as real
  {
    magnitude := size as real;
    var k := 0;
    unit := Units[0];
    while k < |Units|
      invariant 0 <= k <= 5
      invariant magnitude * Pow1024(k) as real == size as real
      invariant k > 0 ==> Pow1024(k) <= size
      decreases |Units| - k
    {
      unit := Units[k];
      assert unit.Exponent() == k;
      BelowUnitLimit(magnitude, Pow1024(k) as real, size as real);
      assert Pow1024(k + 1) == 1024 * Pow1024(k);
      if magnitude < 1024.0 || unit == PiB {
        break;
      }
      ScaleUp(magnitude, k, size as real);
      magnitude := magnitude / 1024.0;
      k := k + 1;
    }
  }
}
