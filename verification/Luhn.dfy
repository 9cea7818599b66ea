/** Luhn (Annex B of ISO/IEC 7812-1), as the PAN validator computes it (pkg/personalcode/personalcode.go). */
module Luhn {
  import opened Wrappers
  import opened CheckDigits
  import opened Text

  function Doubled(x: int): int {
    if 2 * x > 9 then 2 * x - 9 else 2 * x
  }

  /** A digit's share by its position from the right: every second one is doubled, digits of the double added. */
  function Share(fromRight: int, x: int): int {
    if fromRight % 2 == 1 then Doubled(x) else x
  }

  function LuhnSum(d: seq<int>, lo: nat): int {
    PositionSum((j, x) => Share(|d| - 1 - j, x), d, lo)
  }

  ghost predicate LuhnAccepts(d: seq<int>) {
    LuhnSum(d, 0) % 10 == 0
  }

  /** The alternating right-to-left loop is the positional formula. */
  method LuhnLoop(d: string) returns (sum: int)
    ensures sum == LuhnSum(Values(d), 0)
  {
    var alt, i := false, |d|;
    sum := 0;
    while i > 0
      invariant 0 <= i <= |d|
      invariant alt <==> (|d| - i) % 2 == 1
      invariant sum == LuhnSum(Values(d), i)
    {
      i := i - 1;
      var n := DigitVal(d[i]);
      if alt {
        n := n * 2;
        if n > 9 {
          n := n - 9;
        }
      }
      assert n == Share(|d| - 1 - i, Values(d)[i]);
      sum := sum + n;
      alt := !alt;
    }
  }

  method ValidatePAN(value: string) returns (r: Result<string, Reason>)
    ensures var d := Keep(IsDigit, value);
      r == if |d| < 12 || |d| > 19 then Err(WrongLength)
           else if LuhnAccepts(Values(d)) then Ok(d) else Err(WrongChecksum)
  {
    var d := Filter(IsDigit, value);
    if |d| < 12 || |d| > 19 {
      return Err(WrongLength);
    }
    var sum := LuhnLoop(d);
    // Go's remainder and Dafny's agree on whether it is zero.
    if GoMod(sum, 10) != 0 {
      return Err(WrongChecksum);
    }
    return Ok(d);
  }

  lemma LuhnCatchesSubstitution(d: seq<int>, i: nat, x: int)
    requires LuhnAccepts(d) && Decimal(d) && i < |d| && 0 <= x <= 9 && x != d[i]
    ensures !LuhnAccepts(d[i := x])
  {
    PositionSumSubstitute((j, y) => Share(|d| - 1 - j, y), d, i, x, 0);
    var r := |d| - 1 - i;
    var delta := Share(r, x) - Share(r, d[i]);
    assert LuhnSum(d[i := x], 0) == LuhnSum(d, 0) + delta;
    SharesDiffer(r, x, d[i]);
    Shift10(LuhnSum(d, 0), delta);
  }

  /** Doubling with the digits added permutes 0..9. */
  lemma SharesDiffer(r: int, a: int, b: int)
    requires 0 <= a <= 9 && 0 <= b <= 9 && a != b
    ensures (Share(r, a) - Share(r, b)) % 10 != 0
  {
  }

  /** What doubling adds to a digit: 0 1 2 3 4 -4 -3 -2 -1 0, so only 0 and 9 share it. */
  lemma Gains(a: int, b: int)
    requires 0 <= a <= 9 && 0 <= b <= 9
    ensures (Doubled(a) - a - (Doubled(b) - b)) % 10 == 0 <==> a == b || (a == 0 && b == 9) || (a == 9 && b == 0)
  {
  }

  /** A swap of neighbours slips through exactly for equal digits and for the pair 0 and 9. */
  lemma LuhnSwapIff(d: seq<int>, i: nat)
    requires LuhnAccepts(d) && Decimal(d) && i + 1 < |d|
    ensures LuhnAccepts(Swap(d, i)) <==>
      d[i] == d[i + 1] || (d[i] == 0 && d[i + 1] == 9) || (d[i] == 9 && d[i + 1] == 0)
  {
    PositionSumSwap((j, x) => Share(|d| - 1 - j, x), d, i);
    var r, a, b := |d| - 1 - i, d[i], d[i + 1];
    var delta := Share(r, b) - Share(r, a) + Share(r - 1, a) - Share(r - 1, b);
    assert LuhnSum(Swap(d, i), 0) == LuhnSum(d, 0) + delta;
    Gains(a, b);
    if r % 2 == 1 {
      assert delta == -(Doubled(a) - a - (Doubled(b) - b));
    } else {
      assert delta == Doubled(a) - a - (Doubled(b) - b);
    }
    Shift10(LuhnSum(d, 0), delta);
    Negate10(delta);
  }

  lemma Negate10(x: int)
    ensures x % 10 == 0 <==> (-x) % 10 == 0
  {
  }
}
