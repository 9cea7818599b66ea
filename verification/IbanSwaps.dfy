/** Which transpositions the IBAN check misses, in the code as it is typed. */
module IbanSwaps {
  import opened CheckDigits
  import opened Text
  import opened Iban

  // ------------------------------------------------------------------ ten has order 96 modulo 97

  function Power(k: nat): int {
    if k == 0 then 1 else Power(k - 1) * 10 % 97
  }

  /** `w` lists the powers of ten modulo 97; that it is Power is of no further interest. */
  ghost predicate Powers(w: nat -> int) {
    w(0) == 1 && forall k: nat :: Tenfold(w, k)
  }

  predicate Tenfold(w: nat -> int, k: nat) {
    w(k + 1) == w(k) * 10 % 97
  }

  lemma PowerLists()
    ensures Powers(Power)
  {
    forall k: nat ensures Tenfold(Power, k) {}
  }

  lemma MulMod(x: int, y: int)
    ensures x % 97 * y % 97 == x * y % 97
  {
    PullMod(x, y, 0);
  }

  lemma TenMore(p: int, q: int)
    ensures p * q % 97 * 10 % 97 == p * 10 % 97 * q % 97
  {
    MulMod(p * q, 10);
    MulMod(p * 10, q);
    assert p * q * 10 == p * 10 * q;
  }

  lemma {:induction false} PowersInRange(w: nat -> int, k: nat)
    requires Powers(w)
    ensures Residue(w(k))
  {
    if k > 0 { assert Tenfold(w, k - 1); }
  }

  lemma {:induction false} PowersAdd(w: nat -> int, a: nat, b: nat)
    requires Powers(w)
    ensures w(a + b) == w(a) * w(b) % 97
  {
    if a > 0 {
      PowersAdd(w, a - 1, b);
      TenMore(w(a - 1), w(b));
      assert Tenfold(w, a - 1 + b) && Tenfold(w, a - 1);
    } else {
      PowersInRange(w, b);
    }
  }

  lemma Together(w: nat -> int, a: nat, b: nat, r: int, t: int, rt: int)
    requires Powers(w) && w(a) == r && w(b) == t && rt == r * t % 97
    ensures w(a + b) == rt
  {
    PowersAdd(w, a, b);
  }

  /** Half way round and a third of the way, by repeated squaring. */
  lemma Turns(w: nat -> int)
    requires Powers(w)
    ensures w(48) == 96 && w(32) == 61
  {
    assert Tenfold(w, 0);
    Together(w, 1, 1, 10, 10, 3);
    Together(w, 2, 2, 3, 3, 9);
    Together(w, 4, 4, 9, 9, 81);
    Together(w, 8, 8, 81, 81, 62);
    Together(w, 16, 16, 62, 62, 61);
    Together(w, 32, 16, 61, 62, 96);
  }

  lemma AddTurn(w: nat -> int, n: nat)
    requires Powers(w)
    ensures w(n + 48) == w(n) * 96 % 97 && w(n + 32) == w(n) * 61 % 97
  {
    Turns(w);
    PowersAdd(w, n, 48);
    PowersAdd(w, n, 32);
  }

  /** Every 48 steps the sign turns. */
  lemma {:induction false} HalfTurns(w: nat -> int, c: nat)
    requires Powers(w)
    ensures w(48 * c) == if c % 2 == 0 then 1 else 96
  {
    if c > 0 {
      HalfTurns(w, c - 1);
      AddTurn(w, 48 * (c - 1));
    }
  }

  /** Every 32 steps a third of the way round. */
  lemma {:induction false} ThirdTurns(w: nat -> int, c: nat)
    requires Powers(w)
    ensures w(32 * c) == if c % 3 == 0 then 1 else if c % 3 == 1 then 61 else 35
  {
    if c > 0 {
      ThirdTurns(w, c - 1);
      AddTurn(w, 32 * (c - 1));
    }
  }

  lemma {:induction false} OneForever(w: nat -> int, k: nat, n: nat)
    requires Powers(w) && w(k) == 1
    ensures w(n * k) == 1
  {
    if n > 0 {
      OneForever(w, k, n - 1);
      PowersAdd(w, (n - 1) * k, k);
      assert (n - 1) * k + k == n * k;
    }
  }

  /** Where the power is one, k = mc makes c even, for every m that divides 48. */
  lemma DoubleUp(w: nat -> int, k: nat, m: nat, n: nat, c: nat)
    requires Powers(w) && w(k) == 1 && k == m * c && m * n == 48
    ensures c % 2 == 0
  {
    OneForever(w, k, n);
    HalfTurns(w, c);
    assert n * k == n * (m * c) == (m * n) * c;
  }

  lemma Halves(w: nat -> int, k: nat) returns (e: nat)
    requires Powers(w) && w(k) == 1
    ensures k == 32 * e
  {
    DoubleUp(w, k, 1, 48, k);
    var a := k / 2;
    DoubleUp(w, k, 2, 24, a);
    var b := a / 2;
    DoubleUp(w, k, 4, 12, b);
    var c := b / 2;
    DoubleUp(w, k, 8, 6, c);
    var d := c / 2;
    DoubleUp(w, k, 16, 3, d);
    e := d / 2;
  }

  lemma Thirds(w: nat -> int, k: nat)
    requires Powers(w) && w(k) == 1
    ensures k % 3 == 0
  {
    OneForever(w, k, 32);
    ThirdTurns(w, k);
  }

  lemma ThreeTimes(k: nat, e: nat)
    requires k == 32 * e && k % 3 == 0
    ensures k % 96 == 0
  {
    var h := k / 3;
    assert e == 3 * (11 * e - h);
    assert k == 96 * (11 * e - h);
  }

  lemma OrderOfTen(w: nat -> int, k: nat)
    requires Powers(w)
    ensures w(k) == 1 <==> k % 96 == 0
  {
    if w(k) == 1 {
      var e := Halves(w, k);
      Thirds(w, k);
      ThreeTimes(k, e);
    }
    if k % 96 == 0 {
      HalfTurns(w, 2 * (k / 96));
      assert 48 * (2 * (k / 96)) == k;
    }
  }

  // ------------------------------------------------------------------ transposed as typed

  /** How many decimal digits a text expands to. */
  function Width(s: string): nat {
    if s == [] then 0 else Width(s[..|s| - 1]) + if IsDigit(s[|s| - 1]) then 1 else 2
  }

  lemma {:induction false} WidthAtMost(s: string)
    ensures Width(s) <= 2 * |s|
  {
    if s != [] { WidthAtMost(s[..|s| - 1]); }
  }

  lemma PullTail(x: int, y: int)
    ensures (x + y % 97) % 97 == (x + y) % 97
  {
    AddMultiple(y / 97, x + y % 97);
    assert 97 * (y / 97) + (x + y % 97) == x + y;
  }

  lemma Expanded(r: int, p: int, f: int, m: int, v: int)
    ensures (r * p + f) * m + v == p * m * r + (f * m + v)
  {
  }

  lemma PullBoth(q: int, r: int, t: int)
    ensures (q * r + t) % 97 == (q % 97 * r + t % 97) % 97
  {
    PullMod(q, r, t);
    PullTail(q % 97 * r, t);
  }

  lemma CarryReduced(x: int, m: int, v: int, y: int, r: int, t: int)
    requires x * m + v == y * r + t
    ensures (x % 97 * m + v) % 97 == (y % 97 * r + t % 97) % 97
  {
    PullMod(x, m, v);
    PullBoth(y, r, t);
  }

  lemma TwoTens(w: nat -> int, k: nat)
    requires Powers(w)
    ensures w(k + 1) == w(k) * 10 % 97 && w(k + 2) == w(k) * 100 % 97
  {
    assert Tenfold(w, k) && Tenfold(w, k + 1);
    MulMod(w(k) * 10, 10);
  }

  lemma OneFold(r: int, s: string, m: int)
    requires s != [] && m == if IsDigit(s[|s| - 1]) then 10 else 100
    ensures Fold(r, s) == (Fold(r, s[..|s| - 1]) * m + CharVal(s[|s| - 1])) % 97
  {
  }

  /** Both a carried power and a tail may be reduced. */
  lemma CarryOne(r: int, p: int, f: int, m: int, v: int, x: int, y: int, t: int)
    requires x == r * p + f && y == p * m && t == f * m + v
    ensures (x % 97 * m + v) % 97 == (y % 97 * r + t % 97) % 97
  {
    Expanded(r, p, f, m, v);
    CarryReduced(x, m, v, y, r, t);
  }

  lemma CarryStep(r: int, p: int, f: int, m: int, v: int, carried: int, q: int, folded: int)
    requires carried == (r * p + f) % 97 && q == p * m % 97 && folded == (f * m + v) % 97
    ensures (carried * m + v) % 97 == (r * q + folded) % 97
  {
    CarryOne(r, p, f, m, v, r * p + f, p * m, f * m + v);
  }

  /** A prefix's remainder is carried along by a power of ten. */
  lemma {:induction false} FoldCarries(w: nat -> int, r: int, s: string)
    requires Powers(w) && Residue(r)
    ensures Fold(r, s) == (r * w(Width(s)) + Fold(0, s)) % 97
  {
    if s != [] {
      var init, c := s[..|s| - 1], s[|s| - 1];
      var m := if IsDigit(c) then 10 else 100;
      FoldCarries(w, r, init);
      TwoTens(w, Width(init));
      OneFold(r, s, m);
      OneFold(0, s, m);
      CarryStep(r, w(Width(init)), Fold(0, init), m, CharVal(c), Fold(r, init), w(Width(s)), Fold(0, s));
    }
  }

  lemma TimesInverse(e: int, inv: int, k: int, x: int)
    requires e * inv == 97 * k + 1
    ensures e * x * inv == 97 * (k * x) + x
  {
    assert e * x * inv == (e * inv) * x;
  }

  lemma MultipleCancels(y: int, inv: int, n: int, x: int)
    requires y % 97 == 0 && y * inv == 97 * n + x
    ensures x % 97 == 0
  {
    var m := y / 97;
    assert y * inv == 97 * (m * inv);
    assert x == 97 * (m * inv - n);
  }

  lemma CancelDigit(e: int, inv: int, k: int, x: int)
    requires e * inv == 97 * k + 1 && (e * x) % 97 == 0
    ensures x % 97 == 0
  {
    TimesInverse(e, inv, k, x);
    MultipleCancels(e * x, inv, k * x, x);
  }

  lemma InverseOfDigit(p: int) returns (inv: int, k: int)
    requires 1 <= p <= 9
    ensures p * inv == 97 * k + 1
  {
    inv := [0, 1, 49, 65, 73, 39, 81, 14, 85, 54][p];
    k := [0, 0, 1, 2, 3, 2, 5, 1, 7, 5][p];
  }

  lemma NegatedMultiple(y: int)
    requires y % 97 == 0
    ensures -y % 97 == 0
  {
  }

  lemma PositiveTimes(p: int, x: int)
    requires 1 <= p <= 9 && (p * x) % 97 == 0
    ensures x % 97 == 0
  {
    var inv, k := InverseOfDigit(p);
    CancelDigit(p, inv, k, x);
  }

  /** A difference of digits is invertible modulo 97. */
  lemma DigitTimes(e: int, x: int)
    requires -9 <= e <= 9 && e != 0 && x % 97 != 0
    ensures (e * x) % 97 != 0
  {
    if (e * x) % 97 == 0 {
      if e < 0 {
        NegatedMultiple(e * x);
        assert -e * x == -(e * x);
        PositiveTimes(-e, x);
      } else {
        PositiveTimes(e, x);
      }
    }
  }

  lemma HeadDigit(w: nat -> int, a: char, tail: string)
    requires Powers(w) && IsDigit(a)
    ensures Fold(0, [a] + tail) == (DigitVal(a) * w(Width(tail)) + Fold(0, tail)) % 97
  {
    FoldAppend(0, [a], tail);
    OneChar(0, [a]);
    FoldCarries(w, DigitVal(a), tail);
  }

  /** A text between two digits. */
  lemma EndsFold(w: nat -> int, a: char, mid: string, b: char)
    requires Powers(w) && IsDigit(a) && IsDigit(b)
    ensures Fold(0, [a] + mid + [b]) ==
      (DigitVal(a) * w(Width(mid) + 1) + (Fold(0, mid) * 10 + DigitVal(b)) % 97) % 97
  {
    var tail := mid + [b];
    assert tail[..|mid|] == mid;
    HeadDigit(w, a, tail);
    assert [a] + mid + [b] == [a] + tail;
  }

  lemma EndsApart(va: int, vb: int, q: int, f: int)
    requires 0 <= va <= 9 && 0 <= vb <= 9 && va != vb && Residue(q) && q != 1
    ensures (va * q + (f * 10 + vb) % 97) % 97 != (vb * q + (f * 10 + va) % 97) % 97
  {
    PullTail(va * q, f * 10 + vb);
    PullTail(vb * q, f * 10 + va);
    var x, y := va * q + (f * 10 + vb), vb * q + (f * 10 + va);
    SameResidue(x, y);
    assert x - y == (va - vb) * (q - 1);
    DigitTimes(va - vb, q - 1);
  }

  lemma NotOne(w: nat -> int, k: nat)
    requires Powers(w) && 1 <= k < 96
    ensures Residue(w(k)) && w(k) != 1
  {
    OrderOfTen(w, k);
    PowersInRange(w, k);
  }

  /** Exchanging the two ends of a text, both digits, changes its remainder unless they are equal. */
  lemma EndsExchanged(w: nat -> int, a: char, mid: string, b: char, q: int)
    requires Powers(w) && IsDigit(a) && IsDigit(b) && a != b
    requires q == w(Width(mid) + 1) && Residue(q) && q != 1
    ensures Fold(0, [a] + mid + [b]) != Fold(0, [b] + mid + [a])
  {
    EndsFold(w, a, mid, b);
    EndsFold(w, b, mid, a);
    EndsApart(DigitVal(a), DigitVal(b), q, Fold(0, mid));
  }

  /** What a transposition at i must exchange to go unnoticed. */
  predicate Unnoticed(norm: string, i: nat)
    requires i + 1 < |norm|
  {
    if i == 1 then false
    else if i == 3 then norm[3] == norm[4]
    else Confusable(norm[i], norm[i + 1])
  }

  /**
   Any two neighbours of an accepted code as it is written, transposed: the result is accepted exactly when
   they are equal, or a digit and the letter worth eleven times it within the account part.
   */
  lemma IbanTypedSwapIff(norm: string, i: nat)
    requires IbanAccepts(norm) && i + 1 < |norm|
    ensures IbanAccepts(Swap(norm, i)) <==> Unnoticed(norm, i)
  {
    ShapeChars(norm);
    if i == 3 {
      BoundarySwap(norm);
    } else if i != 1 {
      var j := if i < 4 then |norm| - 4 + i else i - 4;
      assert Rearranged(Swap(norm, i)) == Swap(Rearranged(norm), j);
      assert Rearranged(norm)[j] == norm[i] && Rearranged(norm)[j + 1] == norm[i + 1];
      IbanSwapIff(norm, j);
      assert IbanShape(Swap(norm, i));
    }
  }

  lemma BoundarySwap(norm: string)
    requires IbanAccepts(norm)
    ensures IbanAccepts(Swap(norm, 3)) <==> norm[3] == norm[4]
  {
    ShapeChars(norm);
    if IsDigit(norm[4]) {
      var mid := norm[5..] + norm[..3];
      assert Rearranged(norm) == [norm[4]] + mid + [norm[3]];
      assert Rearranged(Swap(norm, 3)) == [norm[3]] + mid + [norm[4]];
      assert IbanShape(Swap(norm, 3));
      ShapeChars(Swap(norm, 3));
      if norm[3] != norm[4] {
        PowerLists();
        WidthAtMost(mid);
        NotOne(Power, Width(mid) + 1);
        EndsExchanged(Power, norm[4], mid, norm[3], Power(Width(mid) + 1));
      }
    }
  }
}
