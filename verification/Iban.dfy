/** IBAN (ISO 13616-1, with the mod-97 check of ISO/IEC 7064), as the IBAN validator streams it. */
module Iban {
  import opened Wrappers
  import opened CheckDigits
  import opened Text

  predicate IsLetter(c: char) {
    'A' <= c <= 'Z'
  }

  predicate IbanChar(c: char) {
    IsDigit(c) || IsLetter(c)
  }

  /** The characters in the order of their values. */
  const ALPHABET := "0123456789ABCDEFGHIJKLMNOPQRSTUVWXYZ"

  /** A character's place in the alphabet, from a given place on; past its end when it is not there. */
  function Place(c: char, from: nat): nat
    decreases |ALPHABET| - from
  {
    if from >= |ALPHABET| then |ALPHABET| else if ALPHABET[from] == c then from else Place(c, from + 1)
  }

  /** A=10 .. Z=35, as the loop computes it. */
  function CharVal(c: char): int {
    if IsDigit(c) then DigitVal(c) else c as int - 'A' as int + 10
  }

  // ------------------------------------------------------------------ the whole integer

  /** Each letter becomes the two decimal digits of its place in the alphabet. */
  function Expand(s: string): seq<int> {
    if s == [] then [] else
      var k := Place(s[|s| - 1], 0);
      Expand(s[..|s| - 1]) + if k < 10 then [k] else [k / 10, k % 10]
  }

  lemma AlphabetAt(k: nat)
    requires k < |ALPHABET|
    ensures ALPHABET[k] == if k < 10 then ('0' as int + k) as char else ('A' as int + k - 10) as char
  {
  }

  lemma {:induction false} PlaceFrom(k: nat, from: nat)
    requires from <= k < |ALPHABET|
    ensures Place(ALPHABET[k], from) == k
    decreases k - from
  {
    AlphabetAt(k);
    AlphabetAt(from);
    if from < k { PlaceFrom(k, from + 1); }
  }

  /** The loop's arithmetic gives every character its place in the alphabet. */
  lemma CharValIsPlace(c: char)
    requires IbanChar(c)
    ensures 0 <= CharVal(c) < |ALPHABET| && ALPHABET[CharVal(c)] == c && Place(c, 0) == CharVal(c)
  {
    AlphabetAt(CharVal(c));
    PlaceFrom(CharVal(c), 0);
  }

  lemma PlaceIsVal(c: char)
    requires IbanChar(c)
    ensures Place(c, 0) == CharVal(c) && (CharVal(c) < 10 <==> IsDigit(c))
  {
    CharValIsPlace(c);
  }

  /** A letter at place k appends the digits k/10 and k%10, and a digit itself. */
  lemma AlphabetExpands(s: string, k: nat)
    requires k < |ALPHABET|
    ensures Expand(s + [ALPHABET[k]]) == Expand(s) + if k < 10 then [k] else [k / 10, k % 10]
  {
    PlaceFrom(k, 0);
    assert (s + [ALPHABET[k]])[..|s|] == s;
  }

  /** The integer a list of decimal digits writes. */
  function Number(d: seq<int>): int {
    if d == [] then 0 else Number(d[..|d| - 1]) * 10 + d[|d| - 1]
  }

  // ------------------------------------------------------------------ the running remainder

  function Step(rem: int, c: char): int {
    if IsDigit(c) then (rem * 10 + CharVal(c)) % 97 else (rem * 100 + CharVal(c)) % 97
  }

  function Fold(rem: int, s: string): int {
    if s == [] then rem else Step(Fold(rem, s[..|s| - 1]), s[|s| - 1])
  }

  lemma ExpandLast(s: string)
    requires s != [] && IbanChar(s[|s| - 1])
    ensures var c, init := s[|s| - 1], Expand(s[..|s| - 1]);
      Expand(s) == init + if IsDigit(c) then [CharVal(c)] else [CharVal(c) / 10, CharVal(c) % 10]
  {
    PlaceIsVal(s[|s| - 1]);
  }

  lemma FoldLast(n: int, d: seq<int>, c: char)
    requires n == Number(d) && IbanChar(c)
    ensures Step(n % 97, c) ==
      Number(d + if IsDigit(c) then [CharVal(c)] else [CharVal(c) / 10, CharVal(c) % 10]) % 97
  {
    if IsDigit(c) {
      DecimalSnoc(d, [CharVal(c)]);
      PullMod(n, 10, CharVal(c));
    } else {
      DecimalSnoc(d, [CharVal(c) / 10, CharVal(c) % 10]);
      PullMod(n, 100, CharVal(c));
    }
  }

  lemma {:induction false} FoldIsWhole(s: string)
    requires forall c | c in s :: IbanChar(c)
    ensures Fold(0, s) == Number(Expand(s)) % 97
  {
    if s != [] {
      var init, c := s[..|s| - 1], s[|s| - 1];
      assert c in s;
      FoldIsWhole(init);
      ExpandLast(s);
      FoldLast(Number(Expand(init)), Expand(init), c);
    }
  }

  /** The integer a list of digits writes is the one its text reads as. */
  lemma {:induction false} NumberReads(t: string)
    requires AllDigits(t)
    ensures Number(Values(t)) == Magnitude(t)
  {
    if t != [] {
      assert t[|t| - 1] in t;
      assert Values(t)[..|t| - 1] == Values(t[..|t| - 1]);
      NumberReads(t[..|t| - 1]);
    }
  }

  lemma {:induction false} DecimalSnoc(d: seq<int>, more: seq<int>)
    requires 1 <= |more| <= 2
    ensures Number(d + more) ==
      if |more| == 1 then Number(d) * 10 + more[0] else Number(d) * 100 + more[0] * 10 + more[1]
  {
    assert (d + more)[..|d| + |more| - 1] == d + more[..|more| - 1];
    if |more| == 1 {
      assert d + more[..0] == d;
    } else {
      assert (d + more[..1])[..|d|] == d;
    }
  }

  // ------------------------------------------------------------------ the validator

  function Rearranged(norm: string): string
    requires |norm| >= 4
  {
    norm[4..] + norm[..4]
  }

  /** `^[A-Z]{2}[0-9]{2}[A-Z0-9]{1,30}$` */
  predicate IbanShape(s: string) {
    && 5 <= |s| <= 34
    && IsLetter(s[0]) && IsLetter(s[1]) && IsDigit(s[2]) && IsDigit(s[3])
    && forall i | 4 <= i < |s| :: IbanChar(s[i])
  }

  function IbanNorm(value: string): string {
    Keep(IbanChar, UpperAll(value))
  }

  ghost predicate IbanAccepts(norm: string) {
    |norm| >= 15 && IbanShape(norm) && Number(Expand(Rearranged(norm))) % 97 == 1
  }

  /** Accepted are exactly the well-formed codes whose whole rearranged, expanded integer is 1 mod 97. */
  method ValidateIBAN(value: string) returns (r: Result<string, Reason>)
    ensures var n := IbanNorm(value);
      r == if |n| < 15 || |n| > 34 || !IbanShape(n) then Err(WrongFormat)
           else if IbanAccepts(n) then Ok(n) else Err(WrongChecksum)
  {
    var norm := Filter(IbanChar, UpperAll(value));
    KeepIs(IbanChar, UpperAll(value));
    if |norm| < 15 || |norm| > 34 || !IbanShape(norm) {
      return Err(WrongFormat);
    }
    var rearranged := norm[4..] + norm[..4];
    forall c | c in rearranged ensures IbanChar(c) { assert c in norm; }
    var rem := RemainderLoop(rearranged);
    if rem != 1 {
      return Err(WrongChecksum);
    }
    return Ok(norm);
  }

  /** The running remainder is that of the whole integer, which is never built. */
  method RemainderLoop(s: string) returns (rem: int)
    requires forall c | c in s :: IbanChar(c)
    ensures rem == Number(Expand(s)) % 97
  {
    rem := 0;
    for i := 0 to |s|
      invariant rem == Fold(0, s[..i])
    {
      assert s[..i + 1][..i] == s[..i];
      var c := s[i];
      if '0' <= c <= '9' {
        rem := (rem * 10 + (c as int - '0' as int)) % 97;
      } else {
        var v := c as int - 'A' as int + 10;
        rem := (rem * 100 + v) % 97;
      }
    }
    assert s[..|s|] == s;
    FoldIsWhole(s);
  }

  /** An accepted code is its own normal form, so validating it again accepts it unchanged. */
  lemma IbanFixed(value: string)
    ensures IbanNorm(IbanNorm(value)) == IbanNorm(value)
  {
    var n := IbanNorm(value);
    KeepIs(IbanChar, UpperAll(value));
    assert forall i | 0 <= i < |n| :: n[i] in n;
    assert UpperAll(n) == n;
    KeepIs(IbanChar, n);
  }

  // ------------------------------------------------------------------ the errors it catches

  predicate Residue(r: int) {
    0 <= r < 97
  }

  /** 10 and 100 are invertible modulo 97, by 68 and 65. */
  lemma Cancel10(a: int, b: int, v: int)
    requires Residue(a) && Residue(b) && (a * 10 + v) % 97 == (b * 10 + v) % 97
    ensures a == b
  {
    var k := (a * 10 + v) / 97 - (b * 10 + v) / 97;
    assert a - b == 97 * (68 * k - 7 * (a - b));
  }

  lemma Cancel100(a: int, b: int, v: int)
    requires Residue(a) && Residue(b) && (a * 100 + v) % 97 == (b * 100 + v) % 97
    ensures a == b
  {
    var k := (a * 100 + v) / 97 - (b * 100 + v) / 97;
    assert a - b == 97 * (65 * k - 67 * (a - b));
  }

  lemma StepInjective(a: int, b: int, c: char)
    requires Residue(a) && Residue(b) && a != b
    ensures Residue(Step(a, c)) && Residue(Step(b, c)) && Step(a, c) != Step(b, c)
  {
    if IsDigit(c) {
      if Step(a, c) == Step(b, c) { Cancel10(a, b, CharVal(c)); }
    } else {
      if Step(a, c) == Step(b, c) { Cancel100(a, b, CharVal(c)); }
    }
  }

  /** Nothing that follows an error can hide it: equal tails take distinct remainders to distinct remainders. */
  lemma {:induction false} FoldInjective(a: int, b: int, s: string)
    requires Residue(a) && Residue(b) && a != b
    ensures Residue(Fold(a, s)) && Residue(Fold(b, s)) && Fold(a, s) != Fold(b, s)
  {
    if s != [] {
      FoldInjective(a, b, s[..|s| - 1]);
      StepInjective(Fold(a, s[..|s| - 1]), Fold(b, s[..|s| - 1]), s[|s| - 1]);
    }
  }

  lemma FoldResidue(s: string)
    ensures Residue(Fold(0, s))
  {
  }

  lemma {:induction false} FoldAppend(r: int, s: string, t: string)
    ensures Fold(r, s + t) == Fold(Fold(r, s), t)
  {
    if t == [] {
      assert s + t == s;
    } else {
      assert (s + t)[..|s + t| - 1] == s + t[..|t| - 1];
      FoldAppend(r, s, t[..|t| - 1]);
    }
  }

  /** Any digit for another digit, or letter for another letter, anywhere: the remainder changes. */
  lemma SubstitutionChangesRemainder(s: string, i: nat, c: char)
    requires i < |s| && c != s[i]
    requires (IsDigit(s[i]) && IsDigit(c)) || (IsLetter(s[i]) && IsLetter(c))
    ensures Fold(0, s[i := c]) != Fold(0, s)
  {
    var head, tail := s[..i], s[i + 1..];
    assert s == head + ([s[i]] + tail) && s[i := c] == head + ([c] + tail);
    FoldResidue(head);
    var r := Fold(0, head);
    FoldAround(head, [s[i]], tail);
    FoldAround(head, [c], tail);
    OneChar(r, [s[i]]);
    OneChar(r, [c]);
    StepDistinguishes(r, s[i], c);
    FoldInjective(Step(r, s[i]), Step(r, c), tail);
  }

  lemma CloseApart(x: int, y: int)
    requires x != y && -97 < x - y < 97
    ensures x % 97 != y % 97
  {
  }

  lemma StepDistinguishes(r: int, a: char, b: char)
    requires Residue(r) && a != b
    requires (IsDigit(a) && IsDigit(b)) || (IsLetter(a) && IsLetter(b))
    ensures Residue(Step(r, a)) && Residue(Step(r, b)) && Step(r, a) != Step(r, b)
  {
    var m := if IsDigit(a) then 10 else 100;
    CloseApart(r * m + CharVal(a), r * m + CharVal(b));
  }

  lemma OneChar(r: int, s: string)
    requires |s| == 1
    ensures Fold(r, s) == Step(r, s[0])
  {
  }

  lemma {:induction false} TwoChars(r: int, s: string)
    requires |s| == 2
    ensures Fold(r, s) == Step(Step(r, s[0]), s[1])
  {
    OneChar(r, s[..1]);
  }

  /** Equal, or a digit and a letter worth eleven times the digit: 1 with B, 2 with M, 3 with X. */
  predicate Confusable(a: char, b: char) {
    || a == b
    || (IsDigit(a) && IsLetter(b) && CharVal(b) == 11 * CharVal(a))
    || (IsLetter(a) && IsDigit(b) && CharVal(a) == 11 * CharVal(b))
  }

  /** Distinct characters are confusable exactly as these three pairs. */
  lemma ConfusablePairs(a: char, b: char)
    requires IbanChar(a) && IbanChar(b)
    ensures Confusable(a, b) <==>
      a == b || (a, b) in {('1', 'B'), ('B', '1'), ('2', 'M'), ('M', '2'), ('3', 'X'), ('X', '3')}
  {
  }

  /** A swap of neighbours leaves the remainder alone exactly when the two are confusable. */
  lemma {:induction false} SwapChangesRemainderIff(s: string, i: nat)
    requires i + 1 < |s| && IbanChar(s[i]) && IbanChar(s[i + 1])
    ensures Fold(0, Swap(s, i)) == Fold(0, s) <==> Confusable(s[i], s[i + 1])
  {
    var head, a, b, tail := s[..i], s[i], s[i + 1], s[i + 2..];
    CutAt(s, i);
    CutAt(Swap(s, i), i);
    assert Swap(s, i)[..i] == head && Swap(s, i)[i + 2..] == tail;
    FoldResidue(head);
    var r := Fold(0, head);
    FoldAround(head, [a, b], tail);
    FoldAround(head, [b, a], tail);
    TwoChars(r, [a, b]);
    TwoChars(r, [b, a]);
    TwoSteps(r, a, b);
    SameTail(Step(Step(r, a), b), Step(Step(r, b), a), tail);
  }

  lemma CutAt(s: string, i: nat)
    requires i + 1 < |s|
    ensures s == s[..i] + ([s[i], s[i + 1]] + s[i + 2..])
  {
  }

  lemma {:induction false} FoldAround(head: string, mid: string, tail: string)
    ensures Fold(0, head + (mid + tail)) == Fold(Fold(Fold(0, head), mid), tail)
  {
    FoldAppend(0, head, mid + tail);
    FoldAppend(Fold(0, head), mid, tail);
  }

  lemma {:induction false} SameTail(x: int, y: int, tail: string)
    requires Residue(x) && Residue(y)
    ensures Fold(x, tail) == Fold(y, tail) <==> x == y
  {
    if x != y {
      FoldInjective(x, y, tail);
    }
  }

  lemma TwoSteps(r: int, a: char, b: char)
    requires Residue(r) && IbanChar(a) && IbanChar(b)
    ensures Step(Step(r, a), b) == Step(Step(r, b), a) <==> Confusable(a, b)
  {
    var ma, mb := Base(a), Base(b);
    StepsAre(r, a, b);
    StepsAre(r, b, a);
    assert ma * mb == mb * ma;
    SameShift(r * (ma * mb), CharVal(a) * mb + CharVal(b), CharVal(b) * ma + CharVal(a));
    SwapDifference(ma, CharVal(a), mb, CharVal(b));
  }

  function Base(c: char): int {
    if IsDigit(c) then 10 else 100
  }

  lemma StepsAre(r: int, a: char, b: char)
    ensures Step(Step(r, a), b) == (r * (Base(a) * Base(b)) + (CharVal(a) * Base(b) + CharVal(b))) % 97
  {
    StepStep(r, Base(a), CharVal(a), Base(b), CharVal(b));
  }

  lemma StepStep(r: int, m: int, v: int, n: int, u: int)
    ensures ((r * m + v) % 97 * n + u) % 97 == (r * (m * n) + v * n + u) % 97
  {
    PullMod(r * m + v, n, u);
    assert (r * m + v) * n == r * (m * n) + v * n;
  }

  lemma SameShift(q: int, x: int, y: int)
    ensures (q + x) % 97 == (q + y) % 97 <==> (x - y) % 97 == 0
  {
    SameResidue(q + x, q + y);
  }

  lemma SwapDifference(ma: int, va: int, mb: int, vb: int)
    requires (ma == 10 && 0 <= va <= 9) || (ma == 100 && 10 <= va <= 35)
    requires (mb == 10 && 0 <= vb <= 9) || (mb == 100 && 10 <= vb <= 35)
    ensures (va * mb + vb - (vb * ma + va)) % 97 == 0 <==>
      if ma == mb then va == vb else if ma == 10 then vb == 11 * va else va == 11 * vb
  {
    if ma == mb == 10 {
      NineTimes(va - vb);
    } else if ma == mb {
      Cancel99(va - vb);
    } else if ma == 10 {
      NineTimes(11 * va - vb);
    } else {
      NineTimes(va - 11 * vb);
    }
  }

  lemma Cancel99(x: int)
    requires -97 < x < 97
    ensures (99 * x) % 97 == 0 <==> x == 0
  {
  }

  lemma PullMod(q: int, n: int, u: int)
    ensures (q % 97 * n + u) % 97 == (q * n + u) % 97
  {
    var k, r := q / 97, q % 97;
    assert q * n == (97 * k + r) * n == 97 * (k * n) + r * n;
    AddMultiple(k * n, r * n + u);
  }

  lemma AddMultiple(k: int, z: int)
    ensures (97 * k + z) % 97 == z % 97
  {
  }

  lemma SameResidue(x: int, y: int)
    ensures x % 97 == y % 97 <==> (x - y) % 97 == 0
  {
  }

  lemma NineTimes(x: int)
    requires -97 < x < 97
    ensures (9 * x) % 97 == 0 <==> x == 0
  {
  }

  // ------------------------------------------------------------------ in terms of accepted codes

  lemma ShapeChars(norm: string)
    requires |norm| >= 4 && IbanShape(norm)
    ensures forall c | c in Rearranged(norm) :: IbanChar(c)
    ensures Fold(0, Rearranged(norm)) == Number(Expand(Rearranged(norm))) % 97
  {
    forall c | c in Rearranged(norm) ensures IbanChar(c) {
      assert c in norm;
    }
    FoldIsWhole(Rearranged(norm));
  }

  /** A wrong character of the right class, anywhere in an accepted code, is rejected. */
  lemma IbanCatchesSubstitution(norm: string, i: nat, c: char)
    requires IbanAccepts(norm) && i < |norm| && c != norm[i]
    requires (IsDigit(norm[i]) && IsDigit(c)) || (IsLetter(norm[i]) && IsLetter(c))
    ensures !IbanAccepts(norm[i := c])
  {
    var r, j := Rearranged(norm), if i < 4 then |norm| - 4 + i else i - 4;
    RearrangedUpdate(norm, i, c);
    ShapeChars(norm);
    if IbanShape(norm[i := c]) {
      ShapeChars(norm[i := c]);
    }
    SubstitutionChangesRemainder(r, j, c);
  }

  lemma RearrangedUpdate(norm: string, i: nat, c: char)
    requires 4 <= |norm| && i < |norm|
    ensures var j := if i < 4 then |norm| - 4 + i else i - 4;
      Rearranged(norm)[j] == norm[i] && Rearranged(norm[i := c]) == Rearranged(norm)[j := c]
  {
  }

  /** Transposed neighbours of the rearranged code change its checksum exactly when they are not confusable. */
  lemma IbanSwapIff(norm: string, i: nat)
    requires IbanAccepts(norm) && i + 1 < |norm|
    ensures Number(Expand(Swap(Rearranged(norm), i))) % 97 == 1 <==>
      Confusable(Rearranged(norm)[i], Rearranged(norm)[i + 1])
  {
    var r := Rearranged(norm);
    ShapeChars(norm);
    assert r[i] in r && r[i + 1] in r;
    forall c | c in Swap(r, i) ensures IbanChar(c) { assert c in r; }
    FoldIsWhole(Swap(r, i));
    SwapChangesRemainderIff(r, i);
  }
}
