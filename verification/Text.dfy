/** The string functions of Go's standard library that the dashboard reads its input with, on ASCII text. */
module Text {
  import opened Wrappers

  predicate IsSpace(c: char) {
    c == ' ' || c == '\t' || c == '\n' || c == '\r' || c == '\U{0b}' || c == '\U{0c}'
  }

  function TrimLeft(s: string): string {
    if s != [] && IsSpace(s[0]) then TrimLeft(s[1..]) else s
  }

  function TrimRight(s: string): string {
    if s != [] && IsSpace(s[|s| - 1]) then TrimRight(s[..|s| - 1]) else s
  }

  function TrimSpace(s: string): string {
    TrimRight(TrimLeft(s))
  }

  /** strings.Split on one character: never empty. */
  function Split<T(==)>(s: seq<T>, sep: T): (r: seq<seq<T>>)
    ensures |r| >= 1
  {
    if s == [] then [[]]
    else if s[0] == sep then [[]] + Split(s[1..], sep)
    else
      var rest := Split(s[1..], sep);
      [[s[0]] + rest[0]] + rest[1..]
  }

  /** The blank, and tab, line feed, vertical tab, form feed and carriage return. */
  lemma SpacesAre(c: char)
    ensures IsSpace(c) <==> c == ' ' || 9 <= c as int <= 13
  {
  }

  predicate Blank(s: string) {
    forall c | c in s :: IsSpace(c)
  }

  /** No space at either end. */
  predicate Trimmed(s: string) {
    s != "" ==> !IsSpace(s[0]) && !IsSpace(s[|s| - 1])
  }

  lemma {:induction false} TrimLeftIs(left: string, s: string)
    requires Blank(left) && (s != "" ==> !IsSpace(s[0]))
    ensures TrimLeft(left + s) == s
  {
    if left == "" {
      assert left + s == s;
    } else {
      assert left == [left[0]] + left[1..];
      assert (left + s)[1..] == left[1..] + s;
      TrimLeftIs(left[1..], s);
    }
  }

  lemma {:induction false} TrimRightIs(s: string, right: string)
    requires Blank(right) && (s != "" ==> !IsSpace(s[|s| - 1]))
    ensures TrimRight(s + right) == s
  {
    if right == "" {
      assert s + right == s;
    } else {
      assert right == right[..|right| - 1] + [right[|right| - 1]];
      assert (s + right)[..|s + right| - 1] == s + right[..|right| - 1];
      TrimRightIs(s, right[..|right| - 1]);
    }
  }

  /** Trimming takes off exactly the spaces at the two ends. */
  lemma TrimSpaceIs(left: string, s: string, right: string)
    requires Blank(left) && Trimmed(s) && Blank(right)
    ensures TrimSpace(left + s + right) == s
  {
    if s == "" {
      AllBlank(left + s + right);
    } else {
      assert left + s + right == left + (s + right) && (s + right)[0] == s[0];
      TrimLeftIs(left, s + right);
      TrimRightIs(s, right);
    }
  }

  lemma {:induction false} AllBlank(s: string)
    requires Blank(s)
    ensures TrimLeft(s) == ""
  {
    if s != "" {
      assert s == [s[0]] + s[1..];
      AllBlank(s[1..]);
    }
  }

  lemma {:induction false} LeftBlanks(s: string) returns (left: string)
    ensures Blank(left) && s == left + TrimLeft(s)
    ensures TrimLeft(s) != "" ==> !IsSpace(TrimLeft(s)[0])
  {
    if s != "" && IsSpace(s[0]) {
      var rest := LeftBlanks(s[1..]);
      left := [s[0]] + rest;
      assert s == [s[0]] + s[1..];
    } else {
      left := "";
    }
  }

  lemma {:induction false} RightBlanks(s: string) returns (right: string)
    ensures Blank(right) && s == TrimRight(s) + right
    ensures TrimRight(s) != "" ==> !IsSpace(TrimRight(s)[|TrimRight(s)| - 1])
  {
    if s != "" && IsSpace(s[|s| - 1]) {
      var rest := RightBlanks(s[..|s| - 1]);
      right := rest + [s[|s| - 1]];
      assert s == s[..|s| - 1] + [s[|s| - 1]];
    } else {
      right := "";
    }
  }

  /** And every text is its trimmed form between two runs of spaces. */
  lemma TrimSpaceOf(s: string) returns (left: string, right: string)
    ensures Blank(left) && Blank(right) && Trimmed(TrimSpace(s)) && s == left + TrimSpace(s) + right
  {
    left := LeftBlanks(s);
    right := RightBlanks(TrimLeft(s));
  }

  /** What has no separator is one part; and the part before a separator comes off the front. */
  lemma {:induction false} SplitAtFirst<T>(p: seq<T>, sep: T, rest: seq<T>)
    requires sep !in p
    ensures Split(p, sep) == [p]
    ensures Split(p + [sep] + rest, sep) == [p] + Split(rest, sep)
  {
    if p == [] {
      assert p + [sep] + rest == [sep] + rest;
    } else {
      assert p == [p[0]] + p[1..];
      assert (p + [sep] + rest)[1..] == p[1..] + [sep] + rest;
      SplitAtFirst(p[1..], sep, rest);
    }
  }

  // ------------------------------------------------------------------ decimal integers

  const INT64_MAX := 0x7fff_ffff_ffff_ffff
  const INT64_MIN := -0x8000_0000_0000_0000

  predicate IsDigit(c: char) {
    '0' <= c <= '9'
  }

  predicate AllDigits(s: string) {
    forall c | c in s :: IsDigit(c)
  }

  function Magnitude(s: string): nat
    requires AllDigits(s)
  {
    if s == [] then 0 else
      assert s[|s| - 1] in s;
      Magnitude(s[..|s| - 1]) * 10 + (s[|s| - 1] as int - '0' as int)
  }

  /** One more digit is ten times the rest and its place among the ten. */
  lemma MagnitudeSnoc(s: string, k: nat)
    requires AllDigits(s) && k < 10
    ensures AllDigits(s + ["0123456789"[k]])
    ensures Magnitude(s + ["0123456789"[k]]) == 10 * Magnitude(s) + k
  {
    assert (s + ["0123456789"[k]])[..|s|] == s;
  }

  /** strconv.ParseInt(s, 10, 64): an optional sign, at least one digit, and a value that fits. */
  function ParseInt64(s: string): Option<int> {
    var signed := s != [] && (s[0] == '+' || s[0] == '-');
    var digits := if signed then s[1..] else s;
    if digits == [] || !AllDigits(digits) then None else
      var m: int := Magnitude(digits);
      var n := if signed && s[0] == '-' then -m else m;
      if INT64_MIN <= n <= INT64_MAX then Some(n) else None
  }

  /** The text is these digits, with a sign or without, and they stand for n. */
  predicate Writes(s: string, digits: string, n: int) {
    && digits != "" && AllDigits(digits)
    && var m: int := Magnitude(digits);
       (n == m && (s == digits || s == "+" + digits)) || (n == -m && s == "-" + digits)
  }

  /** A number is one or more digits, with a sign or without, whose value is a signed integer of 64 bits. */
  lemma ParseIff(s: string, n: int)
    ensures ParseInt64(s) == Some(n) <==>
      -9223372036854775808 <= n < 9223372036854775808 && exists digits :: Writes(s, digits, n)
  {
    if ParseInt64(s) == Some(n) {
      var t := if s[0] == '+' || s[0] == '-' then s[1..] else s;
      assert Writes(s, t, n);
    }
    if digits :| Writes(s, digits, n) {
      assert digits[0] in digits;
      if s != digits { assert s[1..] == digits; }
    }
  }

  function Digits(n: nat): string {
    if n < 10 then [('0' as int + n) as char] else Digits(n / 10) + [('0' as int + n % 10) as char]
  }

  /** An integer column cast to text. */
  function Itoa(n: int): string {
    if n < 0 then "-" + Digits(-n) else Digits(n)
  }

  lemma {:induction false} DigitsRead(n: nat)
    ensures Digits(n) != [] && AllDigits(Digits(n)) && Magnitude(Digits(n)) == n
  {
    if n < 10 {
      assert Digits(n)[..0] == [];
    } else {
      DigitsRead(n / 10);
      assert Digits(n)[..|Digits(n)| - 1] == Digits(n / 10);
    }
  }

  lemma {:induction false} NoLeadingZero(n: nat)
    ensures Digits(n) != [] && (Digits(n)[0] == '0' <==> n == 0)
  {
    if n >= 10 {
      NoLeadingZero(n / 10);
    }
  }

  /** The decimal digits of its size, without leading zeros, after a minus sign when it is negative. */
  lemma ItoaIs(n: int)
    ensures n >= 0 ==> Writes(Itoa(n), Itoa(n), n) && (Itoa(n)[0] == '0' <==> n == 0)
    ensures n < 0 ==>
      Itoa(n) != "" && Itoa(n)[0] == '-' && Writes(Itoa(n), Itoa(n)[1..], n) && Itoa(n)[1] != '0'
  {
    DigitsRead(if n < 0 then -n else n);
    NoLeadingZero(if n < 0 then -n else n);
  }

  lemma ItoaRoundTrip(n: int)
    requires INT64_MIN <= n <= INT64_MAX
    ensures ParseInt64(TrimSpace(Itoa(n))) == Some(n)
  {
    var m := if n < 0 then -n else n;
    DigitsRead(m);
    var s := Itoa(n);
    assert Digits(m)[0] in Digits(m) && Digits(m)[|Digits(m)| - 1] in Digits(m);
    assert !IsSpace(s[0]) && !IsSpace(s[|s| - 1]);
    if n < 0 {
      assert s[1..] == Digits(m);
    }
  }
}
