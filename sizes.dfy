/** gyuu/utils.py: the unit choice of format_size. The loop divides the size
    by 1024 until it drops below 1024 or the units B..GB are used up, and
    falls back to TB. Magnitudes are exact reals; the two-decimal rendering is
    not modelled. */
module Sizes {

  datatype Unit = B | KB | MB | GB | TB

  const UnitLadder: seq<Unit> := [B, KB, MB, GB, TB]

  /** 1024 to the k-th power, as a real. */
  function Pow1024(k: nat): (p: real)
    ensures p >= 1.0
  {
    if k == 0 then 1.0 else 1024.0 * Pow1024(k - 1)
  }

  /** Reference choice of the unit: the largest of B..TB whose power of 1024
      does not exceed the size (B for anything below 1024, TB from 1024^4 on). */
  function UnitIndex(size: real): (k: nat)
    ensures k < |UnitLadder|
  {
    if size < 1024.0 then 0
    else if size < 1048576.0 then 1
    else if size < 1073741824.0 then 2
    else if size < 1099511627776.0 then 3
    else 4
  }

  /** The unit is the k-th exactly when 1024^k <= size < 1024^(k+1) (no lower
      bound for B, no upper bound for TB). */
  lemma UnitIndexBounds(size: real, k: nat)
    requires k < |UnitLadder|
    ensures UnitIndex(size) == k <==>
      (k == 0 || Pow1024(k) <= size) && (k == 4 || size < Pow1024(k + 1))
  {
    assert Pow1024(1) == 1024.0;
    assert Pow1024(2) == 1048576.0;
    assert Pow1024(3) == 1073741824.0;
    assert Pow1024(4) == 1099511627776.0;
  }

  /** A larger size never selects a smaller unit. */
  lemma UnitIndexMonotone(a: real, b: real)
    requires a <= b
    ensures UnitIndex(a) <= UnitIndex(b)
  {
  }

  /** Dividing by a positive power keeps the comparison with 1024 scaled. */
  lemma {:induction false} BelowAfterDivision(size: real, k: nat)
    ensures size / Pow1024(k) < 1024.0 <==> size < Pow1024(k + 1)
  {
    var p := Pow1024(k);
    var s := size / p;
    assert s * p == size;
    assert Pow1024(k + 1) == 1024.0 * p;
    if s < 1024.0 {
      assert s * p < 1024.0 * p;
    } else {
      assert s * p >= 1024.0 * p;
    }
  }

  /** One more division by 1024 is a division by the next power. */
  lemma {:induction false} DivideOnce(size: real, k: nat)
    ensures size / Pow1024(k) / 1024.0 == size / Pow1024(k + 1)
  {
    var p := Pow1024(k);
    assert Pow1024(k + 1) == 1024.0 * p;
    var s := size / p;
    assert s * p == size;
    assert (s / 1024.0) * (1024.0 * p) == s * p;
  }

  /** format_size: returns the magnitude and the unit it prints. */
  method FormatSize(size: int) returns (magnitude: real, unit: Unit)
    ensures unit == UnitLadder[UnitIndex(size as real)]
    ensures magnitude == size as real / Pow1024(UnitIndex(size as real))
    ensures unit != TB ==> magnitude < 1024.0
  {
    var units := [B, KB, MB, GB];
    var s := size as real;
    for i := 0 to |units|
      invariant s == size as real / Pow1024(i)
      invariant i == 0 || Pow1024(i) <= size as real
    {
      UnitIndexBounds(size as real, i);
      BelowAfterDivision(size as real, i);
      if s < 1024.0 {
        return s, units[i];
      }
      DivideOnce(size as real, i);
      s := s / 1024.0;
    }
    UnitIndexBounds(size as real, 4);
    return s, TB;
  }
}
