/**
 National-identifier check digits (pkg/personalcode/personalcode.go). Text is ASCII. Each validator is
 proved equal to a congruence over the digits, and the congruence to the errors it catches.
 */
module CheckDigits {
  import opened Wrappers
  import opened Text

  datatype Reason = WrongLength | WrongFormat | WrongChecksum

  function DigitVal(c: char): int {
    c as int - '0' as int
  }

  function Values(s: string): seq<int> {
    seq(|s|, i requires 0 <= i < |s| => DigitVal(s[i]))
  }

  ghost predicate Decimal(d: seq<int>) {
    forall i | 0 <= i < |d| :: 0 <= d[i] <= 9
  }

  // ------------------------------------------------------------------ stripping separators

  function Keep(keep: char -> bool, s: string): string {
    if s == [] then [] else
      Keep(keep, s[..|s| - 1]) + (if keep(s[|s| - 1]) then [s[|s| - 1]] else [])
  }

  lemma {:induction false} KeepIs(keep: char -> bool, s: string)
    ensures forall c | c in Keep(keep, s) :: keep(c)
    ensures (forall c | c in s :: keep(c)) ==> Keep(keep, s) == s
  {
    if s != [] {
      KeepIs(keep, s[..|s| - 1]);
      assert s == s[..|s| - 1] + [s[|s| - 1]];
    }
  }

  /** Each character is kept or dropped by itself, in order. */
  lemma {:induction false} KeepAppend(keep: char -> bool, s: string, t: string)
    ensures Keep(keep, s + t) == Keep(keep, s) + Keep(keep, t)
  {
    if t == [] {
      assert s + t == s;
    } else {
      var init, c := t[..|t| - 1], t[|t| - 1];
      assert (s + t)[..|s + t| - 1] == s + init && (s + t)[|s + t| - 1] == c;
      KeepAppend(keep, s, init);
      var last := if keep(c) then [c] else [];
      assert Keep(keep, s) + (Keep(keep, init) + last) == Keep(keep, s) + Keep(keep, init) + last;
    }
  }

  lemma KeepOne(keep: char -> bool, c: char)
    ensures Keep(keep, [c]) == if keep(c) then [c] else []
  {
    assert [c][..0] == [];
  }

  method Filter(keep: char -> bool, s: string) returns (r: string)
    ensures r == Keep(keep, s)
  {
    r := "";
    for i := 0 to |s|
      invariant r == Keep(keep, s[..i])
    {
      assert s[..i + 1][..i] == s[..i];
      if keep(s[i]) {
        r := r + [s[i]];
      }
    }
    assert s[..|s|] == s;
  }

  lemma DigitValues(s: string)
    requires AllDigits(s)
    ensures Decimal(Values(s))
  {
    forall i | 0 <= i < |s| ensures 0 <= DigitVal(s[i]) <= 9 { assert s[i] in s; }
  }

  /** Normalizing a normalized digit string changes nothing. */
  lemma DigitsFixed(s: string)
    ensures AllDigits(Keep(IsDigit, s)) && Keep(IsDigit, Keep(IsDigit, s)) == Keep(IsDigit, s)
    ensures Decimal(Values(Keep(IsDigit, s)))
  {
    var k := Keep(IsDigit, s);
    KeepIs(IsDigit, s);
    KeepIs(IsDigit, k);
    DigitValues(k);
  }

  // ------------------------------------------------------------------ sums over positions

  /** The sum of f(j, d[j]) for j from `lo` on. */
  function PositionSum(f: (int, int) -> int, d: seq<int>, lo: nat): int
    decreases |d| - lo
  {
    if lo >= |d| then 0 else f(lo, d[lo]) + PositionSum(f, d, lo + 1)
  }

  lemma {:induction false} PositionSumAppend(f: (int, int) -> int, d: seq<int>, x: int, lo: nat)
    requires lo <= |d|
    ensures PositionSum(f, d + [x], lo) == PositionSum(f, d, lo) + f(|d|, x)
    decreases |d| - lo
  {
    if lo < |d| {
      PositionSumAppend(f, d, x, lo + 1);
    }
  }

  /** Changing one position moves the sum by that position's share alone. */
  lemma {:induction false} PositionSumSubstitute(f: (int, int) -> int, d: seq<int>, i: nat, x: int, lo: nat)
    requires i < |d|
    ensures PositionSum(f, d[i := x], lo) == PositionSum(f, d, lo) + if lo <= i then f(i, x) - f(i, d[i]) else 0
    decreases |d| - lo
  {
    if lo < |d| {
      PositionSumSubstitute(f, d, i, x, lo + 1);
    }
  }

  function Swap<T>(d: seq<T>, i: nat): seq<T>
    requires i + 1 < |d|
  {
    d[i := d[i + 1]][i + 1 := d[i]]
  }

  lemma PositionSumSwap(f: (int, int) -> int, d: seq<int>, i: nat)
    requires i + 1 < |d|
    ensures PositionSum(f, Swap(d, i), 0) ==
      PositionSum(f, d, 0) + f(i, d[i + 1]) - f(i, d[i]) + f(i + 1, d[i]) - f(i + 1, d[i + 1])
  {
    PositionSumSubstitute(f, d, i, d[i + 1], 0);
    PositionSumSubstitute(f, d[i := d[i + 1]], i + 1, d[i], 0);
  }

  function At(ws: seq<int>, j: int): int {
    if 0 <= j < |ws| then ws[j] else 0
  }

  function Weighted(ws: seq<int>, d: seq<int>): int {
    PositionSum((j, x) => At(ws, j) * x, d, 0)
  }

  lemma WeightedSubstitute(ws: seq<int>, d: seq<int>, i: nat, x: int)
    requires i < |d|
    ensures Weighted(ws, d[i := x]) - Weighted(ws, d) == At(ws, i) * (x - d[i])
  {
    PositionSumSubstitute((j, x) => At(ws, j) * x, d, i, x, 0);
  }

  lemma WeightedSwap(ws: seq<int>, d: seq<int>, i: nat)
    requires i + 1 < |d|
    ensures Weighted(ws, Swap(d, i)) - Weighted(ws, d) == (At(ws, i) - At(ws, i + 1)) * (d[i + 1] - d[i])
  {
    PositionSumSwap((j, x) => At(ws, j) * x, d, i);
  }

  /** The checksum loop: the first n digits of a digit string against the weights, left to right. */
  method SumLoop(ws: seq<int>, d: string, n: nat) returns (sum: int)
    requires n <= |d|
    ensures sum == Weighted(ws, Values(d[..n]))
  {
    ghost var f := (j, x) => At(ws, j) * x;
    sum := 0;
    for i := 0 to n
      invariant sum == PositionSum(f, Values(d[..i]), 0)
    {
      PositionSumAppend(f, Values(d[..i]), DigitVal(d[i]), 0);
      assert Values(d[..i + 1]) == Values(d[..i]) + [DigitVal(d[i])];
      sum := sum + DigitVal(d[i]) * At(ws, i);
    }
  }

  lemma WeightedSplit(ws: seq<int>, d: seq<int>)
    requires |d| > 0
    ensures Weighted(ws, d) == Weighted(ws, d[..|d| - 1]) + At(ws, |d| - 1) * d[|d| - 1]
  {
    assert d == d[..|d| - 1] + [d[|d| - 1]];
    PositionSumAppend((j, x) => At(ws, j) * x, d[..|d| - 1], d[|d| - 1], 0);
  }

  // ------------------------------------------------------------------ multiples of 11 and of 10

  function Inverse11(w: int): int {
    var p := At([0, 1, 6, 4, 3, 9, 2, 8, 7, 5, 10], if w < 0 then -w else w);
    if w < 0 then -p else p
  }

  lemma TimesInverse11(w: int, inv: int, k: int, e: int)
    requires w * inv == 11 * k + 1
    ensures w * e * inv == 11 * (k * e) + e
  {
    assert w * e * inv == (w * inv) * e;
  }

  lemma SmallRest(y: int, inv: int, n: int, e: int)
    requires y % 11 == 0 && y * inv == 11 * n + e && -10 <= e <= 10
    ensures e == 0
  {
    var m := y / 11;
    assert y * inv == 11 * (m * inv);
    assert e == 11 * (m * inv - n);
  }

  lemma Cancel11(w: int, inv: int, k: int, e: int)
    requires w * inv == 11 * k + 1 && (w * e) % 11 == 0 && -10 <= e <= 10
    ensures e == 0
  {
    TimesInverse11(w, inv, k, e);
    SmallRest(w * e, inv, k * e, e);
  }

  lemma NoSmallMultipleOf11(w: int, e: int)
    requires -10 <= w <= 10 && w != 0 && -10 <= e <= 10 && e != 0
    ensures (w * e) % 11 != 0
  {
    var inv := Inverse11(w);
    HasInverse11(w);
    if (w * e) % 11 == 0 {
      Cancel11(w, inv, (w * inv - 1) / 11, e);
    }
  }

  lemma HasInverse11(w: int)
    requires -10 <= w <= 10 && w != 0
    ensures w * Inverse11(w) == 11 * ((w * Inverse11(w) - 1) / 11) + 1
  {
  }

  lemma UnitTimes10(w: int, e: int)
    requires (w == 1 || w == 3 || w == 7 || w == 9) && -9 <= e <= 9 && e != 0
    ensures (w * e) % 10 != 0
  {
  }

  lemma TheRemainder(z: int, m: int, q: int, r: int)
    requires (m == 5 || m == 10) && z == m * q + r && 0 <= r < m
    ensures z % m == r
  {
  }

  lemma TwiceIsTen(x: int)
    ensures 2 * x % 10 == 0 <==> x % 5 == 0
    ensures -2 * x % 10 == 0 <==> x % 5 == 0
  {
    var q, r := x / 5, x % 5;
    TheRemainder(2 * x, 10, q, 2 * r);
    TheRemainder(-2 * x, 10, if r == 0 then -q else -q - 1, if r == 0 then 0 else 10 - 2 * r);
  }

  lemma TwiceIsFive(x: int)
    ensures 2 * x % 5 == 0 <==> x % 5 == 0
  {
    var q, r := x / 5, x % 5;
    TheRemainder(2 * x, 5, if 2 * r < 5 then 2 * q else 2 * q + 1, if 2 * r < 5 then 2 * r else 2 * r - 5);
  }

  lemma EvenTimes10(w: int, e: int)
    requires w == 2 || w == -2 || w == -4 || w == 8
    ensures (w * e) % 10 == 0 <==> e % 5 == 0
  {
    TwiceIsTen(e);
    TwiceIsFive(e);
    TwiceIsTen(2 * e);
    TwiceIsFive(2 * e);
    TwiceIsTen(4 * e);
    if
    case w == 2 =>
    case w == -2 =>
    case w == -4 => assert w * e == -2 * (2 * e);
    case w == 8 => assert w * e == 2 * (4 * e);
  }

  /** Adding to a multiple of m gives one exactly when what is added is one. */
  lemma Shift11(x: int, delta: int)
    requires x % 11 == 0
    ensures (x + delta) % 11 == 0 <==> delta % 11 == 0
  {
  }

  lemma Shift10(x: int, delta: int)
    requires x % 10 == 0
    ensures (x + delta) % 10 == 0 <==> delta % 10 == 0
  {
  }

  // ------------------------------------------------------------------ CUIL

  const CUIL_WEIGHTS: seq<int> := [5, 4, 3, 2, 7, 6, 5, 4, 3, 2]

  /** The CUIL congruence: the check digit makes the weighted total a multiple of 11. */
  ghost predicate CuilAccepts(d: seq<int>) {
    |d| == 11 && Weighted(CUIL_WEIGHTS + [1], d) % 11 == 0
  }

  lemma WeightsPrefix(ws: seq<int>, c: int, d: seq<int>)
    requires |d| <= |ws|
    ensures Weighted(ws + [c], d) == Weighted(ws, d)
  {
    PositionSumSame((j, x) => At(ws + [c], j) * x, (j, x) => At(ws, j) * x, d, 0);
  }

  lemma {:induction false} PositionSumSame(f: (int, int) -> int, g: (int, int) -> int, d: seq<int>, lo: nat)
    requires forall j | lo <= j < |d| :: f(j, d[j]) == g(j, d[j])
    ensures PositionSum(f, d, lo) == PositionSum(g, d, lo)
    decreases |d| - lo
  {
    if lo < |d| {
      PositionSumSame(f, g, d, lo + 1);
    }
  }

  function CuilCheck(sum: int): int {
    if 11 - sum % 11 == 11 then 0 else 11 - sum % 11
  }

  lemma CuilCheckCompletes(sum: int, v: int)
    requires 0 <= v <= 9
    ensures (sum + v) % 11 == 0 <==> CuilCheck(sum) == v
  {
  }

  method ValidateARCUIL(value: string) returns (r: Result<string, Reason>)
    ensures var d := Keep(IsDigit, value);
      r == if |d| != 11 then Err(WrongLength) else if CuilAccepts(Values(d)) then Ok(d) else Err(WrongChecksum)
  {
    var d := Filter(IsDigit, value);
    DigitsFixed(value);
    if |d| != 11 {
      return Err(WrongLength);
    }
    var s := SumLoop(CUIL_WEIGHTS, d, 10);
    CheckedTotal(CUIL_WEIGHTS, d);
    assert d[10] in d;
    CuilCheckCompletes(s, DigitVal(d[10]));
    var check := 11 - s % 11;
    if check == 11 {
      check := 0;
    } else if check == 10 {
      return Err(WrongChecksum);
    }
    if check != DigitVal(d[10]) {
      return Err(WrongChecksum);
    }
    return Ok(d);
  }

  /** The total over all digits is the loop's sum plus the check digit. */
  lemma CheckedTotal(ws: seq<int>, d: string)
    requires |d| == |ws| + 1
    ensures Weighted(ws + [1], Values(d)) == Weighted(ws, Values(d[..|ws|])) + DigitVal(d[|ws|])
  {
    WeightedSplit(ws + [1], Values(d));
    assert Values(d)[..|ws|] == Values(d[..|ws|]);
    WeightsPrefix(ws, 1, Values(d[..|ws|]));
  }

  lemma CuilCatchesSubstitution(d: seq<int>, i: nat, x: int)
    requires CuilAccepts(d) && Decimal(d) && i < 11 && 0 <= x <= 9 && x != d[i]
    ensures !CuilAccepts(d[i := x])
  {
    WeightedSubstitute(CUIL_WEIGHTS + [1], d, i, x);
    Shift11(Weighted(CUIL_WEIGHTS + [1], d), At(CUIL_WEIGHTS + [1], i) * (x - d[i]));
    NoSmallMultipleOf11(At(CUIL_WEIGHTS + [1], i), x - d[i]);
  }

  lemma CuilCatchesSwap(d: seq<int>, i: nat)
    requires CuilAccepts(d) && Decimal(d) && i < 10 && d[i] != d[i + 1]
    ensures !CuilAccepts(Swap(d, i))
  {
    var w, e := At(CUIL_WEIGHTS + [1], i) - At(CUIL_WEIGHTS + [1], i + 1), d[i + 1] - d[i];
    WeightedSwap(CUIL_WEIGHTS + [1], d, i);
    Shift11(Weighted(CUIL_WEIGHTS + [1], d), w * e);
    assert w == 1 || w == -5;
    NoSmallMultipleOf11(w, e);
  }

  // ------------------------------------------------------------------ PESEL

  const PESEL_WEIGHTS: seq<int> := [1, 3, 7, 9, 1, 3, 7, 9, 1, 3]

  ghost predicate PeselAccepts(d: seq<int>) {
    |d| == 11 && Weighted(PESEL_WEIGHTS + [1], d) % 10 == 0
  }

  lemma PeselCheckCompletes(sum: int, v: int)
    requires 0 <= v <= 9
    ensures (sum + v) % 10 == 0 <==> (10 - sum % 10) % 10 == v
  {
  }

  method ValidatePLPESEL(value: string) returns (r: Result<string, Reason>)
    ensures var d := Keep(IsDigit, value);
      r == if |d| != 11 then Err(WrongLength) else if PeselAccepts(Values(d)) then Ok(d) else Err(WrongChecksum)
  {
    var d := Filter(IsDigit, value);
    DigitsFixed(value);
    if |d| != 11 {
      return Err(WrongLength);
    }
    var s := SumLoop(PESEL_WEIGHTS, d, 10);
    CheckedTotal(PESEL_WEIGHTS, d);
    assert d[10] in d;
    PeselCheckCompletes(s, DigitVal(d[10]));
    var check := (10 - s % 10) % 10;
    if check != DigitVal(d[10]) {
      return Err(WrongChecksum);
    }
    return Ok(d);
  }

  lemma PeselCatchesSubstitution(d: seq<int>, i: nat, x: int)
    requires PeselAccepts(d) && Decimal(d) && i < 11 && 0 <= x <= 9 && x != d[i]
    ensures !PeselAccepts(d[i := x])
  {
    WeightedSubstitute(PESEL_WEIGHTS + [1], d, i, x);
    Shift10(Weighted(PESEL_WEIGHTS + [1], d), At(PESEL_WEIGHTS + [1], i) * (x - d[i]));
    UnitTimes10(At(PESEL_WEIGHTS + [1], i), x - d[i]);
  }

  /** A swap of neighbours slips through exactly when they differ by 0 or 5. */
  lemma PeselSwapIff(d: seq<int>, i: nat)
    requires PeselAccepts(d) && Decimal(d) && i < 10
    ensures PeselAccepts(Swap(d, i)) <==> (d[i] - d[i + 1]) % 5 == 0
  {
    var w, e := At(PESEL_WEIGHTS + [1], i) - At(PESEL_WEIGHTS + [1], i + 1), d[i + 1] - d[i];
    WeightedSwap(PESEL_WEIGHTS + [1], d, i);
    Shift10(Weighted(PESEL_WEIGHTS + [1], d), w * e);
    assert w == -2 || w == -4 || w == 8 || w == 2;
    EvenTimes10(w, e);
  }

  // ------------------------------------------------------------------ RNOKPP

  const RNOKPP_WEIGHTS: seq<int> := [-1, 5, 7, 9, 4, 6, 10, 5, 7]

  /** Go's remainder takes the sign of the dividend; Dafny's is never negative. */
  function GoMod(a: int, b: int): int
    requires b > 0
  {
    if a >= 0 then a % b else -((-a) % b)
  }

  ghost predicate RnokppAccepts(d: seq<int>) {
    && |d| == 10
    && Weighted(RNOKPP_WEIGHTS, d[..9]) >= 0
    && Weighted(RNOKPP_WEIGHTS, d[..9]) % 11 % 10 == d[9]
  }

  method ValidateUARNOKPP(value: string) returns (r: Result<string, Reason>)
    ensures var d := Keep(IsDigit, value);
      r == if |d| != 10 then Err(WrongLength) else if RnokppAccepts(Values(d)) then Ok(d) else Err(WrongChecksum)
  {
    var d := Filter(IsDigit, value);
    DigitsFixed(value);
    if |d| != 10 {
      return Err(WrongLength);
    }
    var sum := SumLoop(RNOKPP_WEIGHTS, d, 9);
    assert Values(d)[..9] == Values(d[..9]);
    RnokppSumAtLeast(Values(d[..9]));
    assert d[9] in d;
    var check := GoMod(GoMod(sum, 11), 10);
    if check != DigitVal(d[9]) {
      return Err(WrongChecksum);
    }
    return Ok(d);
  }

  lemma RnokppSumAtLeast(d: seq<int>)
    requires |d| == 9 && Decimal(d)
    ensures Weighted(RNOKPP_WEIGHTS, d) >= -9
  {
    var f := (j, x) => At(RNOKPP_WEIGHTS, j) * x;
    assert PositionSum(f, d, 0) == f(0, d[0]) + PositionSum(f, d, 1);
    PositionSumNonNegative(f, d, 1);
  }

  lemma {:induction false} PositionSumNonNegative(f: (int, int) -> int, d: seq<int>, lo: nat)
    requires forall j | lo <= j < |d| :: f(j, d[j]) >= 0
    ensures PositionSum(f, d, lo) >= 0
    decreases |d| - lo
  {
    if lo < |d| {
      PositionSumNonNegative(f, d, lo + 1);
    }
  }

  /** A negative weighted sum leaves no check digit: truncating remainders keep the minus sign. */
  lemma RnokppRejectsNegative(d: seq<int>, c: int)
    requires |d| == 9 && Decimal(d) && 0 <= c <= 9 && Weighted(RNOKPP_WEIGHTS, d) < 0
    ensures GoMod(GoMod(Weighted(RNOKPP_WEIGHTS, d), 11), 10) < 0
    ensures !RnokppAccepts(d + [c])
  {
    RnokppSumAtLeast(d);
    assert (d + [c])[..9] == d;
  }

  lemma ShareCheckDigit(before: int, delta: int)
    requires delta % 11 != 0
    ensures
      var after := before + delta;
      after % 11 % 10 == before % 11 % 10 <==>
        (before % 11 == 0 && after % 11 == 10) || (before % 11 == 10 && after % 11 == 0)
  {
  }

  /**
   A wrong digit among the first nine slips through exactly when it moves the residue between 0 and 10,
   the two that share check digit 0; a wrong check digit never does.
   */
  lemma RnokppSubstitutionIff(d: seq<int>, i: nat, x: int)
    requires RnokppAccepts(d) && Decimal(d) && i < 10 && 0 <= x <= 9 && x != d[i]
    ensures
      var before, after := Weighted(RNOKPP_WEIGHTS, d[..9]), Weighted(RNOKPP_WEIGHTS, d[i := x][..9]);
      RnokppAccepts(d[i := x]) <==>
        i < 9 && after >= 0 && ((before % 11 == 0 && after % 11 == 10) || (before % 11 == 10 && after % 11 == 0))
  {
    if i < 9 {
      assert d[i := x][..9] == d[..9][i := x];
      WeightedSubstitute(RNOKPP_WEIGHTS, d[..9], i, x);
      NoSmallMultipleOf11(At(RNOKPP_WEIGHTS, i), x - d[i]);
      ShareCheckDigit(Weighted(RNOKPP_WEIGHTS, d[..9]), At(RNOKPP_WEIGHTS, i) * (x - d[i]));
    } else {
      assert d[i := x][..9] == d[..9];
    }
  }

  lemma AdjacentRnokppWeights(i: nat)
    requires i < 8
    ensures var w := At(RNOKPP_WEIGHTS, i) - At(RNOKPP_WEIGHTS, i + 1); w == -6 || w == -2 || w == 5 || w == -4
  {
  }

  lemma RnokppLastSwap(before: int, c: int, e: int)
    requires before >= 0 && 0 <= c <= 9 && 0 <= e <= 9 && before % 11 % 10 == c
    ensures (before + 7 * (c - e)) % 11 % 10 == e <==>
      c == e || (e == 4 && c == 0 && before % 11 == 10) || (e == 0 && c == 4)
  {
    var r := before % 11;
    assert before + 7 * (c - e) == 11 * (before / 11) + (r + 7 * (c - e));
    AddElevens(before / 11, r + 7 * (c - e));
    RnokppSmall(r, c, e);
  }

  lemma AddElevens(k: int, z: int)
    ensures (11 * k + z) % 11 == z % 11
  {
  }

  lemma ResidueIs(z: int, e: int)
    requires 0 <= e < 11
    ensures z % 11 == e <==> (z - e) % 11 == 0
  {
  }

  lemma Eighths(x: int)
    requires -9 <= x <= 9
    ensures 8 * x % 11 == 0 <==> x == 0
    ensures 0 <= x ==> (8 * x % 11 == 10 <==> x == 4) && ((10 - 8 * x) % 11 == 0 <==> x == 4)
  {
  }

  lemma LastDigit(d: int, e: int)
    requires 0 <= d < 11 && 0 <= e <= 9
    ensures d % 10 == e <==> d == e || (e == 0 && d == 10)
  {
  }

  lemma SameDigit(c: int, e: int)
    requires 0 <= c <= 9 && 0 <= e <= 9
    ensures (8 * c - 7 * e) % 11 % 10 == e <==> c == e || (e == 0 && c == 4)
  {
    LastDigit((8 * c - 7 * e) % 11, e);
    ResidueIs(8 * c - 7 * e, e);
    Eighths(c - e);
    Eighths(c);
  }

  lemma FromTen(e: int)
    requires 0 <= e <= 9
    ensures (10 - 7 * e) % 11 % 10 == e <==> e == 0 || e == 4
  {
    LastDigit((10 - 7 * e) % 11, e);
    ResidueIs(10 - 7 * e, e);
    Eighths(e);
  }

  lemma RnokppSmall(r: int, c: int, e: int)
    requires 0 <= r <= 10 && 0 <= c <= 9 && 0 <= e <= 9 && r % 10 == c
    ensures (r + 7 * (c - e)) % 11 % 10 == e <==> c == e || (e == 4 && c == 0 && r == 10) || (e == 0 && c == 4)
  {
    SameDigit(c, e);
    FromTen(e);
    if r == c {
      assert r + 7 * (c - e) == 8 * c - 7 * e;
    } else {
      assert r == 10 && c == 0;
    }
  }

  /**
   A swap of unequal neighbours slips through exactly when the sum stays non-negative and, inside the first
   nine digits, the residue moves between 0 and 10; with the check digit, when the two are 0 and 4, in the
   order 4 then 0 only for residue 10.
   */
  lemma RnokppSwapIff(d: seq<int>, i: nat)
    requires RnokppAccepts(d) && Decimal(d) && i < 9
    ensures
      var before, after := Weighted(RNOKPP_WEIGHTS, d[..9]), Weighted(RNOKPP_WEIGHTS, Swap(d, i)[..9]);
      RnokppAccepts(Swap(d, i)) <==>
        d[i] == d[i + 1] ||
        (after >= 0 &&
         if i < 8 then (before % 11 == 0 && after % 11 == 10) || (before % 11 == 10 && after % 11 == 0)
         else (d[8] == 4 && d[9] == 0 && before % 11 == 10) || (d[8] == 0 && d[9] == 4))
  {
    var before := Weighted(RNOKPP_WEIGHTS, d[..9]);
    if d[i] == d[i + 1] {
      assert Swap(d, i) == d;
    } else if i < 8 {
      var w, e := At(RNOKPP_WEIGHTS, i) - At(RNOKPP_WEIGHTS, i + 1), d[i + 1] - d[i];
      assert Swap(d, i)[..9] == Swap(d[..9], i);
      WeightedSwap(RNOKPP_WEIGHTS, d[..9], i);
      AdjacentRnokppWeights(i);
      NoSmallMultipleOf11(w, e);
      ShareCheckDigit(before, w * e);
    } else {
      assert Swap(d, i)[..9] == d[..9][8 := d[9]];
      WeightedSubstitute(RNOKPP_WEIGHTS, d[..9], 8, d[9]);
      RnokppLastSwap(before, d[9], d[8]);
    }
  }

  // ------------------------------------------------------------------ RUT

  function Upper(c: char): char {
    if 'a' <= c <= 'z' then (c as int - 'a' as int + 'A' as int) as char else c
  }

  function UpperAll(s: string): string {
    seq(|s|, i requires 0 <= i < |s| => Upper(s[i]))
  }

  predicate RutChar(c: char) {
    IsDigit(c) || c == 'K'
  }

  function VerifierVal(c: char): int {
    if c == 'K' then 10 else DigitVal(c)
  }

  /** The weight at reversed index r is 2 + r mod 6. */
  function RutWeight(len: nat, j: int): int {
    2 + (len - 1 - j) % 6
  }

  function RutSum(body: seq<int>, lo: nat): int {
    PositionSum((j, x) => RutWeight(|body|, j) * x, body, lo)
  }

  /** The RUT congruence, for a body of any length; K stands for ten. */
  ghost predicate RutAccepts(body: seq<int>, v: int) {
    (RutSum(body, 0) + v) % 11 == 0
  }

  function RutNorm(value: string): string {
    Keep(RutChar, UpperAll(value))
  }

  method ValidateCLRUT(value: string) returns (r: Result<string, Reason>)
    ensures var n := RutNorm(value);
      r == if |n| < 8 || |n| > 9 then Err(WrongLength)
           else if !AllDigits(n[..|n| - 1]) then Err(WrongFormat)
           else if RutAccepts(Values(n[..|n| - 1]), VerifierVal(n[|n| - 1])) then Ok(n)
           else Err(WrongChecksum)
  {
    var norm := Filter(RutChar, UpperAll(value));
    KeepIs(RutChar, UpperAll(value));
    if |norm| < 8 || |norm| > 9 {
      return Err(WrongLength);
    }
    r := CheckRUT(norm, norm[..|norm| - 1], norm[|norm| - 1]);
  }

  method CheckRUT(norm: string, body: string, ver: char) returns (r: Result<string, Reason>)
    requires norm == body + [ver] && forall c | c in norm :: RutChar(c)
    ensures r == if !AllDigits(body) then Err(WrongFormat)
                 else if RutAccepts(Values(body), VerifierVal(ver)) then Ok(norm)
                 else Err(WrongChecksum)
  {
    for i := 0 to |body|
      invariant forall j | 0 <= j < i :: IsDigit(body[j])
    {
      if !IsDigit(body[i]) {
        assert body[i] in body;
        return Err(WrongFormat);
      }
    }
    var sum := RutLoop(body);
    assert ver in norm;
    var expected := RutVerifier(sum);
    return if ver == expected then Ok(norm) else Err(WrongChecksum);
  }

  /** The verifier is the one character that completes the sum to a multiple of 11. */
  method RutVerifier(sum: int) returns (expected: char)
    ensures RutChar(expected)
    ensures forall c | RutChar(c) :: c == expected <==> (sum + VerifierVal(c)) % 11 == 0
  {
    var r := 11 - sum % 11;
    if r == 11 {
      expected := '0';
    } else if r == 10 {
      expected := 'K';
    } else {
      expected := ('0' as int + r) as char;
    }
    var s := sum % 11;
    forall c | RutChar(c) ensures c == expected <==> (sum + VerifierVal(c)) % 11 == 0 {
      var v := VerifierVal(c);
      assert (sum + v) % 11 == (s + v) % 11;
      assert (sum + v) % 11 == 0 <==> s + v == 0 || s + v == 11;
    }
  }

  lemma CycleStep(k: nat)
    ensures (k + 1) % 6 == if k % 6 == 5 then 0 else k % 6 + 1
  {
  }

  lemma RutStep(body: seq<int>, i: nat)
    requires i < |body|
    ensures RutSum(body, i) == body[i] * RutWeight(|body|, i) + RutSum(body, i + 1)
  {
  }

  method RutLoop(body: string) returns (sum: int)
    ensures sum == RutSum(Values(body), 0)
  {
    var weight, i := 2, |body|;
    sum := 0;
    while i > 0
      invariant 0 <= i <= |body|
      invariant weight == 2 + (|body| - i) % 6
      invariant sum == RutSum(Values(body), i)
    {
      i := i - 1;
      RutStep(Values(body), i);
      CycleStep(|body| - 1 - i);
      sum := sum + DigitVal(body[i]) * weight;
      weight := weight + 1;
      if weight > 7 {
        weight := 2;
      }
    }
  }

  lemma RutCatchesSubstitution(body: seq<int>, v: int, i: nat, x: int)
    requires RutAccepts(body, v) && Decimal(body) && 0 <= v <= 10
    requires if i < |body| then 0 <= x <= 9 && x != body[i] else 0 <= x <= 10 && x != v
    ensures if i < |body| then !RutAccepts(body[i := x], v) else !RutAccepts(body, x)
  {
    if i < |body| {
      var w := RutWeight(|body|, i);
      RutBodyShift(body, i, x);
      NoSmallMultipleOf11(w, x - body[i]);
      Shift11(RutSum(body, 0) + v, w * (x - body[i]));
    } else {
      Shift11(RutSum(body, 0) + v, x - v);
    }
  }

  lemma RutBodyShift(body: seq<int>, i: nat, x: int)
    requires i < |body|
    ensures RutSum(body[i := x], 0) == RutSum(body, 0) + RutWeight(|body|, i) * (x - body[i])
  {
    PositionSumSubstitute((j, y) => RutWeight(|body|, j) * y, body, i, x, 0);
  }

  /** Neighbouring digits of the body, or its last digit and a digit verifier. */
  lemma RutCatchesSwap(body: seq<int>, v: int, i: nat)
    requires RutAccepts(body, v) && Decimal(body) && 0 <= v <= 9 && i < |body|
    requires body[i] != if i + 1 < |body| then body[i + 1] else v
    ensures if i + 1 < |body| then !RutAccepts(Swap(body, i), v) else !RutAccepts(body[i := v], body[i])
  {
    if i + 1 < |body| {
      RutCatchesBodySwap(body, v, i);
    } else {
      RutBodyShift(body, i, v);
      assert RutWeight(|body|, i) == 2;
      Shift11(RutSum(body, 0) + v, v - body[i]);
    }
  }

  lemma RutCatchesBodySwap(body: seq<int>, v: int, i: nat)
    requires RutAccepts(body, v) && Decimal(body) && i + 1 < |body| && body[i] != body[i + 1]
    ensures !RutAccepts(Swap(body, i), v)
  {
    var n := |body|;
    var w, e := RutWeight(n, i) - RutWeight(n, i + 1), body[i + 1] - body[i];
    PositionSumSwap((j, x) => RutWeight(n, j) * x, body, i);
    SwapShare(RutWeight(n, i), RutWeight(n, i + 1), body[i], body[i + 1]);
    assert RutSum(Swap(body, i), 0) == RutSum(body, 0) + w * e;
    AdjacentRutWeights(n, i);
    NoSmallMultipleOf11(w, e);
    Shift11(RutSum(body, 0) + v, w * e);
  }

  lemma SwapShare(w: int, w': int, a: int, b: int)
    ensures w * b - w * a + w' * a - w' * b == (w - w') * (b - a)
  {
  }

  lemma AdjacentRutWeights(n: nat, i: nat)
    requires i + 1 < n
    ensures RutWeight(n, i) - RutWeight(n, i + 1) == 1 || RutWeight(n, i) - RutWeight(n, i + 1) == -5
  {
  }
}
