/**
 The check-digit rules written out digit by digit, as the documentation of each scheme gives them, and the
 codes the repository's own tests accept and refuse (pkg/personalcode/personalcode_test.go).
 */
module Formulas {
  import opened Wrappers
  import opened Text
  import opened CheckDigits
  import opened Luhn
  import opened Iban

  // ------------------------------------------------------------------ weighted sums, term by term

  lemma FirstTerm(f: (int, int) -> int, d: seq<int>, lo: nat)
    requires lo < |d|
    ensures PositionSum(f, d, lo) == f(lo, d[lo]) + PositionSum(f, d, lo + 1)
  {
  }

  lemma LastTerms(f: (int, int) -> int, d: seq<int>, lo: nat)
    requires lo + 5 == |d|
    ensures PositionSum(f, d, lo) ==
      f(lo, d[lo]) + f(lo + 1, d[lo + 1]) + f(lo + 2, d[lo + 2]) + f(lo + 3, d[lo + 3]) + f(lo + 4, d[lo + 4])
  {
    FirstTerm(f, d, lo);
    FirstTerm(f, d, lo + 1);
    FirstTerm(f, d, lo + 2);
    FirstTerm(f, d, lo + 3);
    FirstTerm(f, d, lo + 4);
  }

  lemma NineTerms(ws: seq<int>, d: seq<int>)
    requires |d| == 9 && |ws| >= 9
    ensures Weighted(ws, d) ==
      ws[0] * d[0] + ws[1] * d[1] + ws[2] * d[2] + ws[3] * d[3] + ws[4] * d[4]
      + ws[5] * d[5] + ws[6] * d[6] + ws[7] * d[7] + ws[8] * d[8]
  {
    var f := (j, x) => At(ws, j) * x;
    FirstTerm(f, d, 0);
    FirstTerm(f, d, 1);
    FirstTerm(f, d, 2);
    FirstTerm(f, d, 3);
    LastTerms(f, d, 4);
  }

  lemma ElevenTerms(ws: seq<int>, d: seq<int>)
    requires |d| == 11 && |ws| == 11
    ensures Weighted(ws, d) ==
      ws[0] * d[0] + ws[1] * d[1] + ws[2] * d[2] + ws[3] * d[3] + ws[4] * d[4] + ws[5] * d[5]
      + ws[6] * d[6] + ws[7] * d[7] + ws[8] * d[8] + ws[9] * d[9] + ws[10] * d[10]
  {
    var f := (j, x) => At(ws, j) * x;
    FirstTerm(f, d, 0);
    FirstTerm(f, d, 1);
    FirstTerm(f, d, 2);
    FirstTerm(f, d, 3);
    FirstTerm(f, d, 4);
    FirstTerm(f, d, 5);
    LastTerms(f, d, 6);
  }

  // ------------------------------------------------------------------ the rules

  lemma CuilFormula(d: seq<int>)
    requires |d| == 11
    ensures CuilAccepts(d) <==>
      (5 * d[0] + 4 * d[1] + 3 * d[2] + 2 * d[3] + 7 * d[4] + 6 * d[5] + 5 * d[6] + 4 * d[7] + 3 * d[8] + 2 * d[9]
       + d[10]) % 11 == 0
  {
    ElevenTerms(CUIL_WEIGHTS + [1], d);
  }

  lemma PeselFormula(d: seq<int>)
    requires |d| == 11
    ensures PeselAccepts(d) <==>
      (d[0] + 3 * d[1] + 7 * d[2] + 9 * d[3] + d[4] + 3 * d[5] + 7 * d[6] + 9 * d[7] + d[8] + 3 * d[9]
       + d[10]) % 10 == 0
  {
    ElevenTerms(PESEL_WEIGHTS + [1], d);
  }

  lemma RnokppFormula(d: seq<int>)
    requires |d| == 10
    ensures
      var sum := -d[0] + 5 * d[1] + 7 * d[2] + 9 * d[3] + 4 * d[4] + 6 * d[5] + 10 * d[6] + 5 * d[7] + 7 * d[8];
      RnokppAccepts(d) <==> sum >= 0 && sum % 11 % 10 == d[9]
  {
    NineTerms(RNOKPP_WEIGHTS, d[..9]);
  }

  /** The two lengths of body the RUT validator lets through, weighted 2 to 7 and around again from the right. */
  lemma RutFormula(d: seq<int>, v: int)
    ensures |d| == 8 ==> (RutAccepts(d, v) <==>
      (3 * d[0] + 2 * d[1] + 7 * d[2] + 6 * d[3] + 5 * d[4] + 4 * d[5] + 3 * d[6] + 2 * d[7] + v) % 11 == 0)
    ensures |d| == 7 ==> (RutAccepts(d, v) <==>
      (2 * d[0] + 7 * d[1] + 6 * d[2] + 5 * d[3] + 4 * d[4] + 3 * d[5] + 2 * d[6] + v) % 11 == 0)
  {
    var f := (j, x) => RutWeight(|d|, j) * x;
    if |d| == 8 {
      FirstTerm(f, d, 0);
      FirstTerm(f, d, 1);
      FirstTerm(f, d, 2);
      LastTerms(f, d, 3);
    } else if |d| == 7 {
      FirstTerm(f, d, 0);
      FirstTerm(f, d, 1);
      LastTerms(f, d, 2);
    }
  }

  lemma LuhnStep(d: seq<int>, lo: nat)
    requires lo < |d|
    ensures LuhnSum(d, lo) == Share(|d| - 1 - lo, d[lo]) + LuhnSum(d, lo + 1)
  {
  }

  /** Two more digits at the left of a code leave the shares of the others alone. */
  lemma {:induction false} LuhnShift(d: seq<int>, more: seq<int>, lo: nat)
    requires |more| == 2 && lo <= |d|
    ensures LuhnSum(more + d, lo + 2) == LuhnSum(d, lo)
    decreases |d| - lo
  {
    if lo < |d| {
      LuhnShift(d, more, lo + 1);
      LuhnStep(d, lo);
      LuhnStep(more + d, lo + 2);
    }
  }

  lemma TwoMoreShares(d: seq<int>, x: int, y: int)
    ensures LuhnSum([x, y] + d, 0) == Share(|d| + 1, x) + Share(|d|, y) + LuhnSum(d, 0)
  {
    LuhnShift(d, [x, y], 0);
    LuhnStep([x, y] + d, 0);
    LuhnStep([x, y] + d, 1);
  }

  /**
   Luhn, two digits at a time from the right: the right one counts as it is, the left one doubled, with the
   digits of the double added. An odd digit out on the left counts as it is.
   */
  lemma LuhnFormula(d: seq<int>, a: int, b: int)
    requires 0 <= a <= 9
    ensures LuhnSum([], 0) == 0 && LuhnSum([b], 0) == b
    ensures |d| % 2 == 0 ==> LuhnSum([a, b] + d, 0) == (2 * a) / 10 + (2 * a) % 10 + b + LuhnSum(d, 0)
    ensures |d| % 2 == 1 ==> LuhnSum([b, a] + d, 0) == b + (2 * a) / 10 + (2 * a) % 10 + LuhnSum(d, 0)
  {
    LuhnStep([b], 0);
    TwoMoreShares(d, a, b);
    TwoMoreShares(d, b, a);
  }

  // ------------------------------------------------------------------ characters

  lemma DigitsAre(k: nat)
    requires k < 10
    ensures DigitVal("0123456789"[k]) == k && IsDigit("0123456789"[k])
  {
  }

  lemma CharsAre(c: char)
    ensures IsDigit(c) <==> c in "0123456789"
    ensures RutChar(c) <==> c in "0123456789K"
  {
    if IsDigit(c) {
      assert "0123456789"[DigitVal(c)] == c;
    }
    assert c == 'K' ==> "0123456789K"[10] == c;
    assert forall i | 0 <= i < 10 :: "0123456789K"[i] == "0123456789"[i];
  }

  lemma UppersAre(k: nat)
    requires k < 26
    ensures Upper("abcdefghijklmnopqrstuvwxyz"[k]) == "ABCDEFGHIJKLMNOPQRSTUVWXYZ"[k]
    ensures Upper("ABCDEFGHIJKLMNOPQRSTUVWXYZ"[k]) == "ABCDEFGHIJKLMNOPQRSTUVWXYZ"[k]
  {
  }

  // ------------------------------------------------------------------ codes accepted and refused

  lemma KnownCuil()
    ensures CuilAccepts([2, 0, 1, 2, 3, 4, 5, 6, 7, 8, 6])
  {
    CuilFormula([2, 0, 1, 2, 3, 4, 5, 6, 7, 8, 6]);
  }

  lemma KnownPesel()
    ensures PeselAccepts([4, 4, 0, 5, 1, 4, 0, 1, 4, 5, 8])
  {
    PeselFormula([4, 4, 0, 5, 1, 4, 0, 1, 4, 5, 8]);
  }

  lemma KnownRnokpp()
    ensures RnokppAccepts([1, 2, 3, 4, 5, 6, 7, 8, 9, 9])
  {
    RnokppFormula([1, 2, 3, 4, 5, 6, 7, 8, 9, 9]);
  }

  lemma KnownRut()
    ensures RutAccepts([1, 2, 3, 4, 5, 6, 7, 8], 5) && !RutAccepts([1, 2, 3, 4, 5, 6, 7, 8], 6)
    ensures RutAccepts([0, 0, 0, 0, 0, 0, 0, 6], VerifierVal('K'))
  {
    RutFormula([1, 2, 3, 4, 5, 6, 7, 8], 5);
    RutFormula([1, 2, 3, 4, 5, 6, 7, 8], 6);
    RutFormula([0, 0, 0, 0, 0, 0, 0, 6], 10);
  }

  lemma OddPair(d: seq<int>, b: int, a: int, before: int, longer: seq<int>)
    requires |d| % 2 == 1 && LuhnSum(d, 0) == before && 0 <= a <= 9 && longer == [b, a] + d
    ensures LuhnSum(longer, 0) == before + b + (2 * a) / 10 + (2 * a) % 10 && |longer| % 2 == 1
  {
    LuhnFormula(d, a, b);
  }

  lemma KnownPanTail()
    ensures LuhnSum([6, 3, 1, 0, 0, 0, 5], 0) == 18
  {
    LuhnFormula([], 0, 5);
    OddPair([5], 0, 0, 5, [0, 0, 5]);
    OddPair([0, 0, 5], 1, 0, 5, [1, 0, 0, 0, 5]);
    OddPair([1, 0, 0, 0, 5], 6, 3, 6, [6, 3, 1, 0, 0, 0, 5]);
  }

  lemma KnownPan()
    ensures LuhnAccepts([3, 7] + ([8, 2] + ([8, 2] + ([2, 4] + [6, 3, 1, 0, 0, 0, 5]))))
  {
    var tail := [6, 3, 1, 0, 0, 0, 5];
    KnownPanTail();
    OddPair(tail, 2, 4, 18, [2, 4] + tail);
    OddPair([2, 4] + tail, 8, 2, 28, [8, 2] + ([2, 4] + tail));
    OddPair([8, 2] + ([2, 4] + tail), 8, 2, 40, [8, 2] + ([8, 2] + ([2, 4] + tail)));
    OddPair([8, 2] + ([8, 2] + ([2, 4] + tail)), 3, 7, 52, [3, 7] + ([8, 2] + ([8, 2] + ([2, 4] + tail))));
  }

  /** The remainder after each character, one step at a time. */
  lemma {:induction false} Remainders(s: string, rems: seq<int>)
    requires |rems| == |s| + 1
    requires forall i | 0 <= i < |s| :: rems[i + 1] == Step(rems[i], s[i])
    ensures Fold(rems[0], s) == rems[|s|]
  {
    if s != [] {
      Remainders(s[..|s| - 1], rems[..|s|]);
    }
  }

  lemma KnownStart()
    ensures Fold(0, "WEST1234") == 6
  {
    Remainders("WEST1234", [0, 32, 13, 67, 36, 70, 23, 39, 6]);
  }

  lemma KnownMiddle()
    ensures Fold(6, "56987654") == 58
  {
    Remainders("56987654", [6, 65, 74, 70, 29, 6, 66, 83, 58]);
  }

  lemma KnownEnd()
    ensures Fold(58, "32GB82") == 1
  {
    Remainders("32GB82", [58, 1, 12, 52, 70, 29, 1]);
  }

  lemma KnownWhole()
    ensures Fold(0, "WEST1234" + "56987654" + "32GB82") == 1
  {
    KnownStart();
    KnownMiddle();
    KnownEnd();
    FoldAppend(0, "WEST1234", "56987654");
    FoldAppend(0, "WEST1234" + "56987654", "32GB82");
  }

  lemma KnownText()
    ensures Rearranged("GB82WEST12345698765432") == "WEST1234" + "56987654" + "32GB82"
  {
    assert "GB82WEST12345698765432"[4..] == "WEST1234" + "56987654" + "32";
    assert "GB82WEST12345698765432"[..4] == "GB82";
    assert "32" + "GB82" == "32GB82";
  }

  lemma KnownShape()
    ensures IbanShape("GB82WEST12345698765432")
  {
  }

  /** The example code of ISO 13616-1 is accepted: the integer it spells is 1 modulo 97. */
  lemma KnownIban()
    ensures IbanAccepts("GB82WEST12345698765432")
  {
    KnownShape();
    KnownText();
    KnownWhole();
    ShapeChars("GB82WEST12345698765432");
  }
}
