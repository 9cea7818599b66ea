/**
 The four base64 encodings of sections 4 and 5 of RFC 4648 as Go's decoder reads them: newlines are
 ignored anywhere, and the unused low bits of a final group are not checked.
 */
module Base64 {
  import opened Octets
  import opened Wrappers

  datatype Encoding = Encoding(url: bool, padded: bool)

  const RAW_URL := Encoding(true, false)
  const STD := Encoding(false, true)
  const URL := Encoding(true, true)
  const RAW_STD := Encoding(false, false)

  type Sextet = v: int | 0 <= v < 64

  function CharOf(url: bool, v: Sextet): char {
    if v < 26 then ('A' as int + v) as char
    else if v < 52 then ('a' as int + v - 26) as char
    else if v < 62 then ('0' as int + v - 52) as char
    else if v == 62 then (if url then '-' else '+')
    else (if url then '_' else '/')
  }

  predicate InAlphabet(url: bool, c: char) {
    || 'A' <= c <= 'Z' || 'a' <= c <= 'z' || '0' <= c <= '9'
    || (url && (c == '-' || c == '_')) || (!url && (c == '+' || c == '/'))
  }

  function ValueOf(c: char): Sextet {
    if 'A' <= c <= 'Z' then c as int - 'A' as int
    else if 'a' <= c <= 'z' then c as int - 'a' as int + 26
    else if '0' <= c <= '9' then c as int - '0' as int + 52
    else if c == '-' || c == '+' then 62 else 63
  }

  const CAPITALS := "ABCDEFGHIJKLMNOPQRSTUVWXYZ"
  const SMALL := "abcdefghijklmnopqrstuvwxyz"
  const TEN := "0123456789"

  /** The two alphabets of RFC 4648, in the order of their values. */
  lemma AlphabetIs(v: Sextet)
    ensures |CAPITALS| == |SMALL| == 26 && |TEN| == 10
    ensures CharOf(false, v) == (CAPITALS + SMALL + TEN + "+/")[v]
    ensures CharOf(true, v) == (CAPITALS + SMALL + TEN + "-_")[v]
  {
    if v < 26 {
      CapitalAt(v);
    } else if v < 52 {
      SmallAt(v - 26);
    }
  }

  lemma CapitalAt(v: nat)
    requires v < 26
    ensures CAPITALS[v] == ('A' as int + v) as char
  {
  }

  lemma SmallAt(v: nat)
    requires v < 26
    ensures SMALL[v] == ('a' as int + v) as char
  {
  }

  lemma CharValue(url: bool, v: Sextet)
    ensures InAlphabet(url, CharOf(url, v)) && ValueOf(CharOf(url, v)) == v
    ensures CharOf(url, v) != '=' && CharOf(url, v) != '\n' && CharOf(url, v) != '\r'
  {
  }

  // ------------------------------------------------------------------ groups

  /** 24 bits as three bytes. */
  function Triple(n: int): Bytes
    requires 0 <= n < 0x100_0000
  {
    [n / 0x1_0000, n / 0x100 % 0x100, n % 0x100]
  }

  /** The same 24 bits as four sextets. */
  function Sextets(n: int): seq<Sextet>
    requires 0 <= n < 0x100_0000
  {
    [n / 0x4_0000, n / 0x1000 % 0x40, n / 0x40 % 0x40, n % 0x40]
  }

  function FromOctets(a: Byte, b: Byte, c: Byte): (n: int)
    ensures 0 <= n < 0x100_0000
  {
    a * 0x1_0000 + b * 0x100 + c
  }

  function FromSextets(a: Sextet, b: Sextet, c: Sextet, d: Sextet): (n: int)
    ensures 0 <= n < 0x100_0000
  {
    a * 0x4_0000 + b * 0x1000 + c * 0x40 + d
  }

  lemma SextetsInvert(n: int)
    requires 0 <= n < 0x100_0000
    ensures var s := Sextets(n); FromSextets(s[0], s[1], s[2], s[3]) == n
  {
    var q := n / 0x40;
    var r := q / 0x40;
    assert n / 0x1000 == r && n / 0x4_0000 == r / 0x40;
  }

  lemma OctetsInvert(a: Byte, b: Byte, c: Byte)
    ensures Triple(FromOctets(a, b, c)) == [a, b, c]
  {
    var n := FromOctets(a, b, c);
    assert n == (a * 0x100 + b) * 0x100 + c;
    assert n / 0x100 == a * 0x100 + b;
    assert n / 0x1_0000 == a;
  }

  // ------------------------------------------------------------------ encoding

  function Padding(enc: Encoding, n: nat): string {
    if enc.padded then seq(n, _ => '=') else ""
  }

  function Group(url: bool, a: Byte, b: Byte, c: Byte): string {
    var s := Sextets(FromOctets(a, b, c));
    [CharOf(url, s[0]), CharOf(url, s[1]), CharOf(url, s[2]), CharOf(url, s[3])]
  }

  function Encode(enc: Encoding, bytes: Bytes): string
    decreases |bytes|
  {
    if |bytes| == 0 then ""
    else if |bytes| == 1 then Group(enc.url, bytes[0], 0, 0)[..2] + Padding(enc, 2)
    else if |bytes| == 2 then Group(enc.url, bytes[0], bytes[1], 0)[..3] + Padding(enc, 1)
    else Group(enc.url, bytes[0], bytes[1], bytes[2]) + Encode(enc, bytes[3..])
  }

  /** One byte left over makes two letters and two '=', two bytes three letters and one; or no '=' at all. */
  lemma FinalGroups(url: bool, a: Byte, b: Byte)
    ensures Encode(Encoding(url, true), [a]) == Group(url, a, 0, 0)[..2] + "=="
    ensures Encode(Encoding(url, false), [a]) == Group(url, a, 0, 0)[..2]
    ensures Encode(Encoding(url, true), [a, b]) == Group(url, a, b, 0)[..3] + "="
    ensures Encode(Encoding(url, false), [a, b]) == Group(url, a, b, 0)[..3]
  {
    assert Padding(Encoding(url, true), 2) == "==" && Padding(Encoding(url, true), 1) == "=";
    assert Padding(Encoding(url, false), 2) == "" && Padding(Encoding(url, false), 1) == "";
  }

  // ------------------------------------------------------------------ decoding

  function DropNewlines(s: string): string {
    if s == [] then [] else
      (if s[0] == '\n' || s[0] == '\r' then [] else [s[0]]) + DropNewlines(s[1..])
  }

  predicate AllIn(url: bool, s: string) {
    forall i | 0 <= i < |s| :: InAlphabet(url, s[i])
  }

  function Ungroup(a: char, b: char, c: char, d: char): Bytes {
    Triple(FromSextets(ValueOf(a), ValueOf(b), ValueOf(c), ValueOf(d)))
  }

  function DecodeClean(enc: Encoding, s: string): Option<Bytes>
    decreases |s|
  {
    if |s| == 0 then Some([])
    else if |s| >= 4 && AllIn(enc.url, s[..4]) then
      match DecodeClean(enc, s[4..])
      case Some(rest) => Some(Ungroup(s[0], s[1], s[2], s[3]) + rest)
      case None => None
    else DecodeTail(enc, s)
  }

  /** A final group short of four characters, or filled up with padding where padding is used. */
  function DecodeTail(enc: Encoding, s: string): Option<Bytes> {
    if enc.padded then
      if |s| != 4 || !AllIn(enc.url, s[..2]) || s[3] != '=' then None
      else if s[2] == '=' then Some(Ungroup(s[0], s[1], 'A', 'A')[..1])
      else if InAlphabet(enc.url, s[2]) then Some(Ungroup(s[0], s[1], s[2], 'A')[..2])
      else None
    else
      if !AllIn(enc.url, s) then None
      else if |s| == 2 then Some(Ungroup(s[0], s[1], 'A', 'A')[..1])
      else if |s| == 3 then Some(Ungroup(s[0], s[1], s[2], 'A')[..2])
      else None
  }

  function Decode(enc: Encoding, token: string): Option<Bytes> {
    DecodeClean(enc, DropNewlines(token))
  }

  // ------------------------------------------------------------------ round trip

  lemma GroupInverts(url: bool, a: Byte, b: Byte, c: Byte)
    ensures var g := Group(url, a, b, c);
      AllIn(url, g) && Ungroup(g[0], g[1], g[2], g[3]) == [a, b, c]
  {
    var s := Sextets(FromOctets(a, b, c));
    CharValue(url, s[0]);
    CharValue(url, s[1]);
    CharValue(url, s[2]);
    CharValue(url, s[3]);
    SextetsInvert(FromOctets(a, b, c));
    OctetsInvert(a, b, c);
  }

  lemma LowZero(k: int)
    ensures k * 0x40 / 0x40 == k && k * 0x40 % 0x40 == 0
  {
  }

  /** With the trailing bytes zero the trailing sextets are zero, that is, 'A'. */
  lemma LastZero(url: bool, a: Byte, b: Byte)
    ensures Group(url, a, b, 0)[3] == 'A'
  {
    assert FromOctets(a, b, 0) == (a * 0x400 + b * 4) * 0x40;
    LowZero(a * 0x400 + b * 4);
  }

  lemma ShortGroups(url: bool, a: Byte, b: Byte)
    ensures Group(url, a, 0, 0)[2] == 'A' && Group(url, a, 0, 0)[3] == 'A'
    ensures Group(url, a, b, 0)[3] == 'A'
  {
    LastZero(url, a, 0);
    LastZero(url, a, b);
    assert FromOctets(a, 0, 0) == (a * 0x10 * 0x40) * 0x40;
    LowZero(a * 0x10 * 0x40);
    LowZero(a * 0x10);
  }

  lemma OneByte(enc: Encoding, a: Byte)
    ensures DecodeClean(enc, Encode(enc, [a])) == Some([a])
  {
    var g, t := Group(enc.url, a, 0, 0), Encode(enc, [a]);
    GroupInverts(enc.url, a, 0, 0);
    ShortGroups(enc.url, a, 0);
    assert t[0] == g[0] && t[1] == g[1] && (enc.padded ==> t[2] == '=' && t[3] == '=' && t[..4][3] == '=');
    assert Ungroup(t[0], t[1], 'A', 'A')[..1] == [a];
  }

  lemma TwoBytes(enc: Encoding, a: Byte, b: Byte)
    ensures DecodeClean(enc, Encode(enc, [a, b])) == Some([a, b])
  {
    var g, t := Group(enc.url, a, b, 0), Encode(enc, [a, b]);
    GroupInverts(enc.url, a, b, 0);
    ShortGroups(enc.url, a, b);
    assert t[0] == g[0] && t[1] == g[1] && t[2] == g[2] && (enc.padded ==> t[3] == '=' && t[..4][3] == '=');
    assert InAlphabet(enc.url, t[2]) && t[2] != '=';
    assert Ungroup(t[0], t[1], t[2], 'A')[..2] == [a, b];
  }

  lemma GroupThen(enc: Encoding, g: string, rest: string)
    requires |g| == 4 && AllIn(enc.url, g) && DecodeClean(enc, rest).Some?
    ensures DecodeClean(enc, g + rest) == Some(Ungroup(g[0], g[1], g[2], g[3]) + DecodeClean(enc, rest).value)
  {
  }

  lemma FirstThree(bytes: Bytes)
    requires |bytes| > 2
    ensures [bytes[0], bytes[1], bytes[2]] + bytes[3..] == bytes
  {
  }

  lemma {:induction false} CleanRoundTrip(enc: Encoding, bytes: Bytes)
    ensures DecodeClean(enc, Encode(enc, bytes)) == Some(bytes)
    decreases |bytes|
  {
    if |bytes| > 2 {
      CleanRoundTrip(enc, bytes[3..]);
      FirstThree(bytes);
      ThreeBytes(enc, bytes[0], bytes[1], bytes[2], bytes[3..]);
    } else {
      FewBytes(enc, bytes);
    }
  }

  lemma FewBytes(enc: Encoding, bytes: Bytes)
    requires |bytes| <= 2
    ensures DecodeClean(enc, Encode(enc, bytes)) == Some(bytes)
  {
    if |bytes| == 1 {
      OneByte(enc, bytes[0]);
      assert bytes == [bytes[0]];
    } else if |bytes| == 2 {
      TwoBytes(enc, bytes[0], bytes[1]);
      assert bytes == [bytes[0], bytes[1]];
    }
  }

  lemma ThreeBytes(enc: Encoding, a: Byte, b: Byte, c: Byte, rest: Bytes)
    requires DecodeClean(enc, Encode(enc, rest)) == Some(rest)
    ensures var bytes := [a, b, c] + rest; DecodeClean(enc, Encode(enc, bytes)) == Some(bytes)
  {
    var g := Group(enc.url, a, b, c);
    GroupInverts(enc.url, a, b, c);
    GroupThen(enc, g, Encode(enc, rest));
    assert ([a, b, c] + rest)[3..] == rest;
  }

  predicate NoNewline(s: string) {
    forall i | 0 <= i < |s| :: s[i] != '\n' && s[i] != '\r'
  }

  lemma {:induction false} NothingToDrop(s: string)
    requires NoNewline(s)
    ensures DropNewlines(s) == s
  {
    if s != [] {
      NothingToDrop(s[1..]);
    }
  }

  lemma {:induction false} EncodedChars(enc: Encoding, bytes: Bytes)
    ensures forall i | 0 <= i < |Encode(enc, bytes)| ::
      InAlphabet(enc.url, Encode(enc, bytes)[i]) || (enc.padded && Encode(enc, bytes)[i] == '=')
    ensures bytes != [] ==> Encode(enc, bytes) != ""
    decreases |bytes|
  {
    if |bytes| == 1 {
      GroupInverts(enc.url, bytes[0], 0, 0);
    } else if |bytes| == 2 {
      GroupInverts(enc.url, bytes[0], bytes[1], 0);
    } else if |bytes| > 2 {
      GroupInverts(enc.url, bytes[0], bytes[1], bytes[2]);
      EncodedChars(enc, bytes[3..]);
    }
  }

  lemma RoundTrip(enc: Encoding, bytes: Bytes)
    ensures Decode(enc, Encode(enc, bytes)) == Some(bytes)
  {
    EncodedChars(enc, bytes);
    NothingToDrop(Encode(enc, bytes));
    CleanRoundTrip(enc, bytes);
  }

  // ------------------------------------------------------------------ the alphabets agree

  lemma {:induction false} CleanAgree(a: Encoding, b: Encoding, s: string)
    requires DecodeClean(a, s).Some? && DecodeClean(b, s).Some?
    ensures DecodeClean(a, s) == DecodeClean(b, s)
    decreases |s|
  {
    if |s| >= 4 {
      assert s[..4][3] == s[3];
      if AllIn(a.url, s[..4]) && AllIn(b.url, s[..4]) {
        CleanAgree(a, b, s[4..]);
      }
    }
  }

  /** Two encodings that both accept a token read the same bytes in it. */
  lemma DecodersAgree(a: Encoding, b: Encoding, token: string)
    requires Decode(a, token).Some? && Decode(b, token).Some?
    ensures Decode(a, token) == Decode(b, token)
  {
    CleanAgree(a, b, DropNewlines(token));
  }

  // ------------------------------------------------------------------ what a decoder accepts

  const LETTERS := CAPITALS + SMALL + TEN

  lemma InAlphabetIff(url: bool, c: char)
    ensures InAlphabet(url, c) <==> c in LETTERS + if url then "-_" else "+/"
  {
    var all := LETTERS + if url then "-_" else "+/";
    AlphabetIs(0);
    if InAlphabet(url, c) {
      var v := ValueOf(c);
      AlphabetIs(v);
      assert all[v] == CharOf(url, v) == c;
    }
    if c in all {
      var v :| 0 <= v < |all| && all[v] == c;
      AlphabetIs(v);
      CharValue(url, v);
    }
  }

  /** The first n characters are in the alphabet, and padding fills the rest. */
  ghost predicate Filled(url: bool, s: string, n: nat) {
    && n <= |s|
    && (forall i | 0 <= i < n :: InAlphabet(url, s[i]))
    && (forall i | n <= i < |s| :: s[i] == '=')
  }

  lemma FilledAfterGroup(url: bool, g: string, t: string, n: nat)
    requires |g| == 4 && AllIn(url, g)
    ensures Filled(url, g + t, n + 4) <==> Filled(url, t, n)
  {
    var s := g + t;
    if Filled(url, t, n) {
      assert forall i | 4 <= i < |s| :: s[i] == t[i - 4];
    }
    if Filled(url, s, n + 4) {
      forall i | 0 <= i < |t| ensures t[i] == s[i + 4] {}
    }
  }

  ghost predicate CanFill(url: bool, s: string) {
    exists n: nat :: Filled(url, s, n) && |s| <= n + 2
  }

  lemma CanFillAfterGroup(url: bool, g: string, t: string)
    requires |g| == 4 && AllIn(url, g)
    ensures CanFill(url, g + t) <==> CanFill(url, t)
  {
    if CanFill(url, t) {
      var n: nat :| Filled(url, t, n) && |t| <= n + 2;
      FilledAfterGroup(url, g, t, n);
    }
    if CanFill(url, g + t) {
      var n: nat :| Filled(url, g + t, n) && |g + t| <= n + 2;
      assert (g + t)[2] == g[2] && (g + t)[3] == g[3];
      FilledAfterGroup(url, g, t, n - 4);
    }
  }

  /** Padded: whole groups, the last with at most two '='. Unpadded: letters alone, never one over. */
  ghost predicate Acceptable(enc: Encoding, s: string) {
    if enc.padded then |s| % 4 == 0 && CanFill(enc.url, s) else Filled(enc.url, s, |s|) && |s| % 4 != 1
  }

  lemma LastPadded(url: bool, s: string)
    requires 0 < |s| && (|s| >= 4 ==> !AllIn(url, s[..4]))
    ensures DecodeTail(Encoding(url, true), s).Some? <==> |s| % 4 == 0 && CanFill(url, s)
  {
    assert |s| >= 4 ==> exists k | 0 <= k < 4 :: s[..4][k] == s[k] && !InAlphabet(url, s[k]);
    if |s| % 4 == 0 && CanFill(url, s) {
      var n: nat :| Filled(url, s, n) && |s| <= n + 2;
      assert |s| == 4 && n < 4 && s[3] == '=';
    }
    if DecodeTail(Encoding(url, true), s).Some? {
      assert s[..2][0] == s[0] && s[..2][1] == s[1];
      assert Filled(url, s, if s[2] == '=' then 2 else 3);
    }
  }

  lemma LastUnpadded(url: bool, s: string)
    requires 0 < |s| && (|s| >= 4 ==> !AllIn(url, s[..4]))
    ensures DecodeTail(Encoding(url, false), s).Some? <==> Filled(url, s, |s|) && |s| % 4 != 1
  {
    assert |s| >= 4 ==> exists k | 0 <= k < 4 :: s[..4][k] == s[k] && !InAlphabet(url, s[k]);
    assert AllIn(url, s) <==> Filled(url, s, |s|);
  }

  lemma AcceptableAfterGroup(enc: Encoding, g: string, t: string)
    requires |g| == 4 && AllIn(enc.url, g)
    ensures Acceptable(enc, g + t) <==> Acceptable(enc, t)
    ensures DecodeClean(enc, g + t).Some? <==> DecodeClean(enc, t).Some?
  {
    FilledAfterGroup(enc.url, g, t, |t|);
    CanFillAfterGroup(enc.url, g, t);
    assert (g + t)[..4] == g && (g + t)[4..] == t;
  }

  lemma {:induction false} CleanAcceptsIff(enc: Encoding, s: string)
    ensures DecodeClean(enc, s).Some? <==> Acceptable(enc, s)
    decreases |s|
  {
    if |s| == 0 {
      assert Filled(enc.url, s, 0);
    } else if |s| >= 4 && AllIn(enc.url, s[..4]) {
      CleanAcceptsIff(enc, s[4..]);
      AcceptableAfterGroup(enc, s[..4], s[4..]);
      assert s == s[..4] + s[4..];
    } else if enc.padded {
      LastPadded(enc.url, s);
    } else {
      LastUnpadded(enc.url, s);
    }
  }

  /** A decoder accepts exactly the tokens that, newlines dropped, are letters and padding in the right number. */
  lemma DecodesIff(enc: Encoding, token: string)
    ensures var s := DropNewlines(token);
      Decode(enc, token).Some? <==>
        if enc.padded then |s| % 4 == 0 && exists n: nat :: Body(enc.url, s, n) && |s| <= n + 2
        else Body(enc.url, s, |s|) && |s| % 4 != 1
  {
    var s := DropNewlines(token);
    CleanAcceptsIff(enc, s);
    forall n: nat ensures Body(enc.url, s, n) <==> Filled(enc.url, s, n) {
      BodyIsFilled(enc.url, s, n);
    }
  }

  /** The same, by membership in the alphabets of RFC 4648. */
  ghost predicate Body(url: bool, s: string, n: nat) {
    && n <= |s|
    && (forall i | 0 <= i < n :: s[i] in LETTERS + if url then "-_" else "+/")
    && (forall i | n <= i < |s| :: s[i] == '=')
  }

  lemma BodyIsFilled(url: bool, s: string, n: nat)
    ensures Body(url, s, n) <==> Filled(url, s, n)
  {
    forall c: char ensures InAlphabet(url, c) <==> c in LETTERS + if url then "-_" else "+/" {
      InAlphabetIff(url, c);
    }
  }

  lemma {:induction false} DropNewlinesIs(s: string, t: string)
    ensures DropNewlines(s + t) == DropNewlines(s) + DropNewlines(t)
    ensures DropNewlines("\n") == DropNewlines("\r") == ""
    ensures NoNewline(s) ==> DropNewlines(s) == s
  {
    if s == [] {
      assert s + t == t;
    } else {
      assert (s + t)[1..] == s[1..] + t;
      DropNewlinesIs(s[1..], t);
    }
  }

  // ------------------------------------------------------------------ encoding what was decoded

  lemma ValueChar(url: bool, c: char)
    requires InAlphabet(url, c)
    ensures CharOf(url, ValueOf(c)) == c
  {
  }

  lemma TripleInverts(n: int)
    requires 0 <= n < 0x100_0000
    ensures |Triple(n)| == 3 && FromOctets(Triple(n)[0], Triple(n)[1], Triple(n)[2]) == n
  {
    var q := n / 0x100;
    assert n / 0x1_0000 == q / 0x100;
  }

  lemma SextetsAre(a: Sextet, b: Sextet, c: Sextet, d: Sextet)
    ensures Sextets(FromSextets(a, b, c, d)) == [a, b, c, d]
  {
    var n := FromSextets(a, b, c, d);
    var q := (a * 0x40 + b) * 0x40 + c;
    assert n == q * 0x40 + d && n / 0x40 == q;
    assert q / 0x40 == a * 0x40 + b && n / 0x1000 == q / 0x40;
    assert n / 0x4_0000 == q / 0x40 / 0x40;
  }

  /** The groups of the test vectors of section 10 of RFC 4648, "Zm9vYmFy" and the beginnings of it. */
  lemma Vectors()
    ensures Group(false, 102, 111, 111) == "Zm9v" && Group(false, 98, 97, 114) == "YmFy"
    ensures Group(false, 102, 111, 0) == "Zm8A" && Group(false, 102, 0, 0) == "ZgAA"
  {
    GroupIs(102, 111, 111, 25, 38, 61, 47);
    GroupIs(98, 97, 114, 24, 38, 5, 50);
    GroupIs(102, 111, 0, 25, 38, 60, 0);
    GroupIs(102, 0, 0, 25, 32, 0, 0);
  }

  lemma GroupIs(a: Byte, b: Byte, c: Byte, s: Sextet, t: Sextet, u: Sextet, v: Sextet)
    requires FromOctets(a, b, c) == FromSextets(s, t, u, v)
    ensures Group(false, a, b, c) == [CharOf(false, s), CharOf(false, t), CharOf(false, u), CharOf(false, v)]
  {
    SextetsAre(s, t, u, v);
  }

  lemma GroupBack(url: bool, g: string)
    requires |g| == 4 && AllIn(url, g)
    ensures var bs := Ungroup(g[0], g[1], g[2], g[3]); |bs| == 3 && Group(url, bs[0], bs[1], bs[2]) == g
  {
    ValueChar(url, g[0]);
    ValueChar(url, g[1]);
    ValueChar(url, g[2]);
    ValueChar(url, g[3]);
    var n := FromSextets(ValueOf(g[0]), ValueOf(g[1]), ValueOf(g[2]), ValueOf(g[3]));
    TripleInverts(n);
    SextetsAre(ValueOf(g[0]), ValueOf(g[1]), ValueOf(g[2]), ValueOf(g[3]));
  }

  lemma OneByteOf(x: Sextet, y: Sextet)
    ensures Triple(FromSextets(x, y, 0, 0))[0] == x * 4 + y / 16
    ensures Sextets(FromOctets(x * 4 + y / 16, 0, 0))[0] == x
  {
    var first: int := x * 4 + y / 16;
    assert FromSextets(x, y, 0, 0) == first * 0x1_0000 + y % 16 * 0x1000;
    assert FromOctets(first, 0, 0) == x * 0x4_0000 + y / 16 * 0x1_0000;
  }

  lemma TwoBytesOf(x: Sextet, y: Sextet, z: Sextet)
    ensures Triple(FromSextets(x, y, z, 0))[..2] == [x * 4 + y / 16, y % 16 * 16 + z / 4]
  {
    OctetsInvert(x * 4 + y / 16, y % 16 * 16 + z / 4, z % 4 * 0x40);
    assert FromOctets(x * 4 + y / 16, y % 16 * 16 + z / 4, z % 4 * 0x40) == FromSextets(x, y, z, 0);
  }

  lemma TwoLettersOf(x: Sextet, y: Sextet, z: Sextet)
    ensures Sextets(FromOctets(x * 4 + y / 16, y % 16 * 16 + z / 4, 0))[..2] == [x, y]
  {
    SextetsAre(x, y, z / 4 * 4, 0);
    assert FromOctets(x * 4 + y / 16, y % 16 * 16 + z / 4, 0) == FromSextets(x, y, z / 4 * 4, 0);
  }

  lemma ShortBack(url: bool, a: char, b: char)
    requires InAlphabet(url, a)
    ensures Group(url, Ungroup(a, b, 'A', 'A')[0], 0, 0)[0] == a
  {
    ValueChar(url, a);
    OneByteOf(ValueOf(a), ValueOf(b));
  }

  lemma LongBack(url: bool, a: char, b: char, c: char)
    requires InAlphabet(url, a) && InAlphabet(url, b)
    ensures var bs := Ungroup(a, b, c, 'A'); Group(url, bs[0], bs[1], 0)[..2] == [a, b]
  {
    ValueChar(url, a);
    ValueChar(url, b);
    var x, y, z := ValueOf(a), ValueOf(b), ValueOf(c);
    TwoBytesOf(x, y, z);
    TwoLettersOf(x, y, z);
    var bs := Ungroup(a, b, c, 'A');
    assert bs[..2][0] == bs[0] && bs[..2][1] == bs[1];
    var s := Sextets(FromOctets(bs[0], bs[1], 0));
    assert s[0] == s[..2][0] && s[1] == s[..2][1];
  }

  /** Two strings that differ at most in the last character before the padding. */
  ghost predicate SameUpToLast(s: string, t: string) {
    |s| == |t| && forall i | 0 <= i < |s| - 1 && s[i + 1] != '=' :: s[i] == t[i]
  }

  lemma BackThenMore(g: string, s: string, t: string)
    requires |g| == 4 && SameUpToLast(s, t)
    ensures SameUpToLast(g + s, g + t)
  {
    forall i | 0 <= i < |g + s| - 1 && (g + s)[i + 1] != '=' ensures (g + s)[i] == (g + t)[i] {
      if i >= 4 { assert s[i - 4 + 1] == (g + s)[i + 1]; }
    }
  }

  lemma TailLetters(enc: Encoding, s: string)
    requires DecodeTail(enc, s).Some?
    ensures |s| >= 2 && InAlphabet(enc.url, s[0]) && InAlphabet(enc.url, s[1])
    ensures if enc.padded then |s| == 4 && s[3] == '=' else |s| == 2 || |s| == 3
    ensures var short := |s| == 2 || s[2] == '=';
      DecodeTail(enc, s).value ==
        if short then Ungroup(s[0], s[1], 'A', 'A')[..1] else Ungroup(s[0], s[1], s[2], 'A')[..2]
  {
    assert s[..2][0] == s[0] && s[..2][1] == s[1];
  }

  lemma LastGroupSame(s: string, t: string)
    requires 2 <= |s| <= 4 && |t| == |s| && (|s| == 4 ==> s[3] == '=') && s[0] == t[0]
    requires |s| > 2 && s[2] != '=' ==> s[1] == t[1]
    ensures SameUpToLast(s, t)
  {
  }

  lemma TailBack(enc: Encoding, s: string)
    requires DecodeTail(enc, s).Some?
    ensures SameUpToLast(s, Encode(enc, DecodeTail(enc, s).value))
  {
    TailLetters(enc, s);
    var t := Encode(enc, DecodeTail(enc, s).value);
    if |s| == 2 || s[2] == '=' {
      TwoLettersBack(enc, s[0], s[1]);
    } else {
      ThreeLettersBack(enc, s[0], s[1], s[2]);
      assert t[0] == t[..2][0] && t[1] == t[..2][1];
    }
    LastGroupSame(s, t);
  }

  lemma TwoLettersBack(enc: Encoding, a: char, b: char)
    requires InAlphabet(enc.url, a)
    ensures var t := Encode(enc, Ungroup(a, b, 'A', 'A')[..1]); |t| == (if enc.padded then 4 else 2) && t[0] == a
  {
    var x := Ungroup(a, b, 'A', 'A')[0];
    ShortBack(enc.url, a, b);
    OneEncoded(enc, x);
    assert Ungroup(a, b, 'A', 'A')[..1] == [x];
  }

  lemma ThreeLettersBack(enc: Encoding, a: char, b: char, c: char)
    requires InAlphabet(enc.url, a) && InAlphabet(enc.url, b)
    ensures var t := Encode(enc, Ungroup(a, b, c, 'A')[..2]); |t| == (if enc.padded then 4 else 3) && t[..2] == [a, b]
  {
    var bs := Ungroup(a, b, c, 'A');
    LongBack(enc.url, a, b, c);
    TwoEncoded(enc, bs[0], bs[1]);
    assert bs[..2] == [bs[0], bs[1]];
  }

  lemma OneEncoded(enc: Encoding, a: Byte)
    ensures |Encode(enc, [a])| == (if enc.padded then 4 else 2) && Encode(enc, [a])[0] == Group(enc.url, a, 0, 0)[0]
  {
  }

  lemma TwoEncoded(enc: Encoding, a: Byte, b: Byte)
    ensures |Encode(enc, [a, b])| == (if enc.padded then 4 else 3)
    ensures Encode(enc, [a, b])[..2] == Group(enc.url, a, b, 0)[..2]
  {
  }

  lemma {:induction false} CleanBack(enc: Encoding, s: string)
    requires DecodeClean(enc, s).Some?
    ensures SameUpToLast(s, Encode(enc, DecodeClean(enc, s).value))
    decreases |s|
  {
    if |s| >= 4 && AllIn(enc.url, s[..4]) {
      var g, t := s[..4], s[4..];
      CleanBack(enc, t);
      GroupBack(enc.url, g);
      var bs, rest := Ungroup(g[0], g[1], g[2], g[3]), DecodeClean(enc, t).value;
      assert (bs + rest)[3..] == rest;
      BackThenMore(g, t, Encode(enc, rest));
      assert s == g + t;
    } else if |s| > 0 {
      TailBack(enc, s);
    }
  }

  /** Encoding what a token decodes to gives the token without its newlines, but perhaps for the last letter. */
  lemma EncodesBack(enc: Encoding, token: string)
    requires Decode(enc, token).Some?
    ensures SameUpToLast(DropNewlines(token), Encode(enc, Decode(enc, token).value))
  {
    CleanBack(enc, DropNewlines(token));
  }
}
