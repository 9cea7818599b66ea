/** Which facets a dashboard request computes (pkg/stats/stats.go, Select and TopN). */
module Selection {
  import opened Facets
  import opened Ordering
  import opened Wrappers
  import Text

  datatype SelectError = UnknownFacet(key: string) | HoldsFailed(code: string)

  /** The permission check: it answers, or fails. Absent, it stands for "every code is held". */
  type Holds = Option<string -> Result<bool, string>>

  /** The names in a facets list: trimmed, blanks skipped. */
  function Names(parts: seq<string>): seq<string> {
    if parts == [] then [] else
      var k := Text.TrimSpace(parts[0]);
      (if k == "" then [] else [k]) + Names(parts[1..])
  }

  function CsvNames(csv: string): seq<string> {
    Names(Text.Split(csv, ','))
  }

  /** An absent or blank list asks for everything. */
  predicate IsNamed(csv: string) {
    Text.TrimSpace(csv) != ""
  }

  // ------------------------------------------------------------------ what a facets list names

  /** A part of the list: from its start or a comma to the next comma or its end. */
  ghost predicate IsPart(csv: string, lo: nat, hi: nat) {
    && lo <= hi <= |csv| && ',' !in csv[lo..hi]
    && (lo == 0 || csv[lo - 1] == ',') && (hi == |csv| || csv[hi] == ',')
  }

  ghost predicate HasPart(csv: string, part: string) {
    exists lo: nat, hi: nat :: IsPart(csv, lo, hi) && csv[lo..hi] == part
  }

  /** A key with spaces around it, if any. */
  ghost predicate Pads(part: string, k: string) {
    exists left, right :: Text.Blank(left) && Text.Blank(right) && part == left + k + right
  }

  /** The list names a key: some part of it is that key, spaces apart, and the key is not empty. */
  ghost predicate NamesKey(csv: string, k: string) {
    k != "" && Text.Trimmed(k) && exists part :: HasPart(csv, part) && Pads(part, k)
  }

  lemma {:induction false} FirstComma(csv: string) returns (h: nat)
    ensures h <= |csv| && ',' !in csv[..h] && (h < |csv| ==> csv[h] == ',')
  {
    if csv == "" || csv[0] == ',' {
      h := 0;
    } else {
      var rest := FirstComma(csv[1..]);
      h := rest + 1;
      assert csv[..h] == [csv[0]] + csv[1..][..rest];
    }
  }

  lemma NoneWithin(csv: string, lo: nat, hi: nat)
    requires lo <= hi <= |csv| && ',' !in csv[lo..hi]
    ensures forall x | lo <= x < hi :: csv[x] != ','
  {
    forall x | lo <= x < hi ensures csv[x] != ',' { assert csv[lo..hi][x - lo] == csv[x]; }
  }

  lemma LaterPart(csv: string, h: nat, part: string)
    requires h < |csv| && ',' !in csv[..h] && csv[h] == ','
    ensures HasPart(csv, part) <==> part == csv[..h] || HasPart(csv[h + 1..], part)
  {
    var rest := csv[h + 1..];
    assert IsPart(csv, 0, h);
    if HasPart(csv, part) {
      var lo: nat, hi: nat :| IsPart(csv, lo, hi) && csv[lo..hi] == part;
      NoneWithin(csv, 0, h);
      NoneWithin(csv, lo, hi);
      if lo > h {
        assert rest[lo - h - 1..hi - h - 1] == csv[lo..hi] && IsPart(rest, lo - h - 1, hi - h - 1);
      }
    }
    if HasPart(rest, part) {
      var lo: nat, hi: nat :| IsPart(rest, lo, hi) && rest[lo..hi] == part;
      assert rest[lo..hi] == csv[lo + h + 1..hi + h + 1] && IsPart(csv, lo + h + 1, hi + h + 1);
    }
  }

  lemma OnePart(csv: string, part: string)
    requires ',' !in csv
    ensures HasPart(csv, part) <==> part == csv
  {
    assert IsPart(csv, 0, |csv|) && csv[0..|csv|] == csv;
  }

  /** Splitting at commas yields exactly the parts. */
  lemma {:induction false} SplitHasParts(csv: string, part: string)
    ensures part in Text.Split(csv, ',') <==> HasPart(csv, part)
    decreases |csv|
  {
    var h := FirstComma(csv);
    if h == |csv| {
      assert csv[..h] == csv;
      Text.SplitAtFirst(csv, ',', "");
      OnePart(csv, part);
    } else {
      assert csv == csv[..h] + [','] + csv[h + 1..];
      Text.SplitAtFirst(csv[..h], ',', csv[h + 1..]);
      SplitHasParts(csv[h + 1..], part);
      LaterPart(csv, h, part);
    }
  }

  lemma {:induction false} NamesAre(parts: seq<string>, k: string)
    ensures k in Names(parts) <==> k != "" && exists part :: part in parts && Text.TrimSpace(part) == k
  {
    if parts != [] {
      NamesAre(parts[1..], k);
      assert parts == [parts[0]] + parts[1..];
      assert parts[0] in parts;
    }
  }

  lemma TrimsTo(part: string, k: string)
    ensures Text.TrimSpace(part) == k <==> Text.Trimmed(k) && Pads(part, k)
  {
    var left, right := Text.TrimSpaceOf(part);
    if Text.Trimmed(k) && Pads(part, k) {
      var l, r :| Text.Blank(l) && Text.Blank(r) && part == l + k + r;
      Text.TrimSpaceIs(l, k, r);
    }
  }

  /** The names read from a list are exactly the keys it names, and it asks for everything only if it is blank. */
  lemma CsvNamesIff(csv: string, k: string)
    ensures k in CsvNames(csv) <==> NamesKey(csv, k)
    ensures IsNamed(csv) <==> !Text.Blank(csv)
  {
    NamesAre(Text.Split(csv, ','), k);
    forall part ensures part in Text.Split(csv, ',') <==> HasPart(csv, part) { SplitHasParts(csv, part); }
    forall part ensures Text.TrimSpace(part) == k <==> Text.Trimmed(k) && Pads(part, k) { TrimsTo(part, k); }
    var left, right := Text.TrimSpaceOf(csv);
    if Text.Blank(csv) { Text.TrimSpaceIs(csv, "", ""); assert csv + "" + "" == csv; }
  }

  predicate Declared(facets: seq<Facet>, key: string) {
    exists f :: f in facets && f.key == key
  }

  predicate Wanted(csv: string, f: Facet) {
    IsNamed(csv) ==> f.key in CsvNames(csv)
  }

  predicate Gated(holds: Holds, f: Facet) {
    f.readPermission != "" && holds.Some?
  }

  predicate Permitted(holds: Holds, f: Facet) {
    Gated(holds, f) ==> holds.value(f.readPermission) == Ok(true)
  }

  /** The wanted facets the caller may read, in catalog order. */
  function Chosen(facets: seq<Facet>, csv: string, holds: Holds): seq<Facet> {
    if facets == [] then [] else
      var f := facets[|facets| - 1];
      Chosen(facets[..|facets| - 1], csv, holds) + if Wanted(csv, f) && Permitted(holds, f) then [f] else []
  }

  lemma {:induction false} ChosenIs(facets: seq<Facet>, csv: string, holds: Holds)
    ensures forall f :: f in Chosen(facets, csv, holds) <==> f in facets && Wanted(csv, f) && Permitted(holds, f)
  {
    if facets != [] {
      ChosenIs(facets[..|facets| - 1], csv, holds);
      assert facets == facets[..|facets| - 1] + [facets[|facets| - 1]];
    }
  }

  /** Selected are exactly the facets the list names, or all if it is blank, that the caller may read. */
  lemma ChosenMeans(facets: seq<Facet>, csv: string, holds: Holds, f: Facet)
    ensures f in Chosen(facets, csv, holds) <==>
      && f in facets && (Text.Blank(csv) || NamesKey(csv, f.key))
      && (f.readPermission == "" || holds.None? || holds.value(f.readPermission) == Ok(true))
  {
    ChosenIs(facets, csv, holds);
    CsvNamesIff(csv, f.key);
  }

  /** They keep the order they are declared in, each as often as it is declared. */
  lemma {:induction false} ChosenInOrder(facets: seq<Facet>, csv: string, holds: Holds, i: nat, j: nat)
    requires i < j < |facets|
    requires facets[i] in Chosen(facets, csv, holds) && facets[j] in Chosen(facets, csv, holds)
    ensures var c := Chosen(facets, csv, holds);
      exists a: nat, b: nat | a < b < |c| :: c[a] == facets[i] && c[b] == facets[j]
  {
    var init := facets[..|facets| - 1];
    ChosenIs(facets, csv, holds);
    ChosenIs(init, csv, holds);
    var before := Chosen(init, csv, holds);
    if j < |facets| - 1 {
      assert init[i] == facets[i] && init[j] == facets[j];
      ChosenInOrder(init, csv, holds, i, j);
      var a: nat, b: nat :| a < b < |before| && before[a] == facets[i] && before[b] == facets[j];
      assert Chosen(facets, csv, holds)[a] == facets[i] && Chosen(facets, csv, holds)[b] == facets[j];
    } else {
      assert init[i] in init && facets[i] in before;
      var a: nat :| a < |before| && before[a] == facets[i];
      assert Chosen(facets, csv, holds)[a] == facets[i] && Chosen(facets, csv, holds)[|before|] == facets[j];
    }
  }

  lemma {:induction false} ChosenAsOften(facets: seq<Facet>, csv: string, holds: Holds, f: Facet)
    ensures multiset(Chosen(facets, csv, holds))[f] ==
      if Wanted(csv, f) && Permitted(holds, f) then multiset(facets)[f] else 0
  {
    if facets != [] {
      ChosenAsOften(facets[..|facets| - 1], csv, holds, f);
      assert facets == facets[..|facets| - 1] + [facets[|facets| - 1]];
    }
  }

  /** No two facets selected from a registered type share a key. */
  lemma {:induction false} ChosenDistinct(facets: seq<Facet>, csv: string, holds: Holds)
    requires DistinctKeys(facets)
    ensures DistinctKeys(Chosen(facets, csv, holds))
  {
    if facets != [] {
      var init, last := facets[..|facets| - 1], facets[|facets| - 1];
      ChosenDistinct(init, csv, holds);
      ChosenIs(init, csv, holds);
      forall f | f in Chosen(init, csv, holds) ensures f.key != last.key {
        assert f in init;
      }
    }
  }

  ghost predicate Asks(facets: seq<Facet>, csv: string, holds: Holds, code: string) {
    exists f :: f in facets && Wanted(csv, f) && Gated(holds, f) && f.readPermission == code
  }

  /** A code is asked about exactly when there is a check and a facet asked for needs that code. */
  lemma AsksMeans(facets: seq<Facet>, csv: string, holds: Holds, code: string)
    ensures Asks(facets, csv, holds, code) <==>
      && holds.Some? && code != ""
      && exists f :: f in facets && f.readPermission == code && (Text.Blank(csv) || NamesKey(csv, f.key))
  {
    forall f ensures Wanted(csv, f) <==> Text.Blank(csv) || NamesKey(csv, f.key) {
      CsvNamesIff(csv, f.key);
    }
    if holds.Some? && code != "" && exists f ::
        f in facets && f.readPermission == code && (Text.Blank(csv) || NamesKey(csv, f.key)) {
      var f :| f in facets && f.readPermission == code && (Text.Blank(csv) || NamesKey(csv, f.key));
      assert Wanted(csv, f) && Gated(holds, f);
    }
  }

  /** The first facet asked for whose check fails. */
  ghost predicate FailsFirst(facets: seq<Facet>, csv: string, holds: Holds, i: nat) {
    && i < |facets| && holds.Some?
    && Wanted(csv, facets[i]) && facets[i].readPermission != "" && holds.value(facets[i].readPermission).Err?
    && forall j | 0 <= j < i :: Wanted(csv, facets[j]) && facets[j].readPermission != "" ==>
         holds.value(facets[j].readPermission).Ok?
  }

  ghost predicate FirstNotDeclared(facets: seq<Facet>, names: seq<string>, key: string) {
    exists i | 0 <= i < |names| ::
      && names[i] == key && (forall f | f in facets :: f.key != key)
      && forall j | 0 <= j < i :: Declared(facets, names[j])
  }

  /** A list that is blank names nothing, and one that is not names what was read from it. */
  lemma NamedOrBlank(facets: seq<Facet>, csv: string)
    ensures (forall k | NamesKey(csv, k) :: Declared(facets, k)) <==>
      (IsNamed(csv) ==> forall k | k in CsvNames(csv) :: Declared(facets, k))
    ensures forall k :: k in CsvNames(csv) <==> NamesKey(csv, k)
  {
    forall k ensures k in CsvNames(csv) <==> NamesKey(csv, k) { CsvNamesIff(csv, k); }
    if !IsNamed(csv) {
      CsvNamesIff(csv, "");
      if k :| NamesKey(csv, k) { NamedNotBlank(csv, k); }
    }
  }

  lemma NamedNotBlank(csv: string, k: string)
    requires NamesKey(csv, k)
    ensures !Text.Blank(csv)
  {
    var part :| HasPart(csv, part) && Pads(part, k);
    var lo: nat, hi: nat :| IsPart(csv, lo, hi) && csv[lo..hi] == part;
    var left, right :| Text.Blank(left) && Text.Blank(right) && part == left + k + right;
    assert part[|left|] == k[0] && csv[lo + |left|] == k[0];
    assert k[0] in csv;
  }

  /** The first name nobody declares, if there is one. */
  method FirstUndeclared(facets: seq<Facet>, names: seq<string>) returns (at: nat)
    ensures at <= |names| && forall j | 0 <= j < at :: Declared(facets, names[j])
    ensures at < |names| ==> !Declared(facets, names[at])
  {
    at := 0;
    while at < |names| && Declared(facets, names[at])
      invariant at <= |names| && forall j | 0 <= j < at :: Declared(facets, names[j])
    {
      at := at + 1;
    }
  }

  /** The first name in the list that nothing declares, if there is one. */
  method Undeclared(facets: seq<Facet>, csv: string) returns (r: Option<string>)
    ensures r.None? <==> forall k | NamesKey(csv, k) :: exists f :: f in facets && f.key == k
    ensures r.Some? ==> NamesKey(csv, r.value) && FirstNotDeclared(facets, CsvNames(csv), r.value)
  {
    NamedOrBlank(facets, csv);
    if !IsNamed(csv) {
      assert forall k | NamesKey(csv, k) :: Declared(facets, k);
      return None;
    }
    var names := CsvNames(csv);
    var at := FirstUndeclared(facets, names);
    if at < |names| {
      assert names[at] in names;
      return Some(names[at]);
    }
    assert forall k | NamesKey(csv, k) :: k in names && Declared(facets, k);
    return None;
  }

  /** The wanted, readable facets, each read code asked about at most once; the first check that fails ends it. */
  method Readable(facets: seq<Facet>, csv: string, holds: Holds)
    returns (r: Result<seq<Facet>, string>, asked: seq<string>)
    ensures NoRepeats(asked) && forall c | c in asked :: Asks(facets, csv, holds, c)
    ensures r.Ok? ==> r.value == Chosen(facets, csv, holds) && forall c :: c in asked <==> Asks(facets, csv, holds, c)
    ensures r.Ok? ==> forall c | c in asked :: holds.Some? && holds.value(c).Ok?
    ensures r.Err? ==>
      && asked != [] && asked[|asked| - 1] == r.error
      && exists i: nat :: FailsFirst(facets, csv, holds, i) && facets[i].readPermission == r.error
  {
    asked := [];
    var selected: seq<Facet> := [];
    var decided: map<string, bool> := map[];
    for i := 0 to |facets|
      invariant selected == Chosen(facets[..i], csv, holds)
      invariant NoRepeats(asked) && forall c :: c in asked <==> c in decided
      invariant forall c :: c in decided <==> Asks(facets[..i], csv, holds, c)
      invariant forall c | c in decided :: holds.Some? && holds.value(c) == Ok(decided[c])
      invariant forall j | 0 <= j < i && Wanted(csv, facets[j]) && Gated(holds, facets[j]) ::
        facets[j].readPermission in decided
    {
      var f := facets[i];
      ChosenStep(facets, i, csv, holds);
      AsksStep(facets, i, csv, holds);
      if !Wanted(csv, f) {
        continue;
      }
      if Gated(holds, f) {
        if f.readPermission !in decided {
          assert Asks(facets, csv, holds, f.readPermission);
          asked := asked + [f.readPermission];
          var answer := holds.value(f.readPermission);
          if answer.Err? {
            assert FailsFirst(facets, csv, holds, i);
            return Err(f.readPermission), asked;
          }
          decided := decided[f.readPermission := answer.value];
        }
        if !decided[f.readPermission] {
          continue;
        }
      }
      selected := selected + [f];
    }
    assert facets[..|facets|] == facets;
    return Ok(selected), asked;
  }

  /**
   The selection: an undeclared name is the caller's error; otherwise the wanted, readable facets in
   catalog order, each read code asked about at most once, and an answer that fails passed on.
   */
  method Select(facets: seq<Facet>, csv: string, holds: Holds)
    returns (r: Result<seq<Facet>, SelectError>, asked: seq<string>)
    ensures NoRepeats(asked) && forall c | c in asked :: Asks(facets, csv, holds, c)
    ensures r.Ok? <==>
      && (forall k | NamesKey(csv, k) :: exists f :: f in facets && f.key == k)
      && (forall c | Asks(facets, csv, holds, c) :: holds.value(c).Ok?)
    ensures r.Ok? ==> r.value == Chosen(facets, csv, holds) && forall c :: c in asked <==> Asks(facets, csv, holds, c)
    ensures r.Err? && r.error.UnknownFacet? ==>
      asked == [] && NamesKey(csv, r.error.key) && FirstNotDeclared(facets, CsvNames(csv), r.error.key)
    ensures r.Err? && r.error.HoldsFailed? ==>
      && asked != [] && asked[|asked| - 1] == r.error.code
      && exists i: nat :: FailsFirst(facets, csv, holds, i) && facets[i].readPermission == r.error.code
  {
    var unknown := Undeclared(facets, csv);
    if unknown.Some? {
      return Err(UnknownFacet(unknown.value)), [];
    }
    var readable;
    readable, asked := Readable(facets, csv, holds);
    if readable.Err? {
      return Err(HoldsFailed(readable.error)), asked;
    }
    return Ok(readable.value), asked;
  }

  lemma ChosenStep(facets: seq<Facet>, i: nat, csv: string, holds: Holds)
    requires i < |facets|
    ensures Chosen(facets[..i + 1], csv, holds) == Chosen(facets[..i], csv, holds) +
      if Wanted(csv, facets[i]) && Permitted(holds, facets[i]) then [facets[i]] else []
  {
    assert facets[..i + 1][..i] == facets[..i];
  }

  lemma AsksStep(facets: seq<Facet>, i: nat, csv: string, holds: Holds)
    requires i < |facets|
    ensures forall c :: Asks(facets[..i + 1], csv, holds, c) <==>
      || Asks(facets[..i], csv, holds, c)
      || (Wanted(csv, facets[i]) && Gated(holds, facets[i]) && facets[i].readPermission == c)
    ensures forall c :: Asks(facets[..i + 1], csv, holds, c) ==> Asks(facets, csv, holds, c)
  {
    assert facets[..i + 1] == facets[..i] + [facets[i]];
    forall c | Asks(facets[..i + 1], csv, holds, c)
      ensures Asks(facets, csv, holds, c)
      ensures Asks(facets[..i], csv, holds, c) ||
        (Wanted(csv, facets[i]) && Gated(holds, facets[i]) && facets[i].readPermission == c)
    {
      var f :| f in facets[..i + 1] && Wanted(csv, f) && Gated(holds, f) && f.readPermission == c;
      assert f in facets;
      assert f in facets[..i] || f == facets[i];
    }
    if Wanted(csv, facets[i]) && Gated(holds, facets[i]) {
      assert facets[i] in facets[..i + 1] && Asks(facets[..i + 1], csv, holds, facets[i].readPermission);
    }
    forall c | Asks(facets[..i], csv, holds, c) ensures Asks(facets[..i + 1], csv, holds, c) {
      var f :| f in facets[..i] && Wanted(csv, f) && Gated(holds, f) && f.readPermission == c;
      assert f in facets[..i + 1];
    }
  }

  /** The cutoff a stats query binds: the first selected top-N facet's. */
  method TopNOf(selected: seq<Facet>) returns (n: int)
    ensures (forall f | f in selected :: !f.buckets.strategy.TopN?) ==> n == 0
    ensures OneTopN(selected) ==> forall f | f in selected && f.buckets.strategy.TopN? :: n == f.buckets.topN
  {
    for i := 0 to |selected|
      invariant forall j | 0 <= j < i :: !selected[j].buckets.strategy.TopN?
    {
      if selected[i].buckets.strategy.TopN? {
        assert selected[i] in selected;
        return selected[i].buckets.topN;
      }
    }
    return 0;
  }

  /** For a registered type one cutoff is right for every selected top-N facet. */
  lemma OneCutoffFitsAll(v: Vocabulary, o: ObjectType, csv: string, holds: Holds)
    requires WellFormed(v, o)
    ensures OneTopN(Chosen(o.facets, csv, holds))
  {
    ChosenIs(o.facets, csv, holds);
  }

  /** A code the caller holds; with no check, every one. */
  predicate Holding(holds: Holds, code: string) {
    holds.Some? ==> holds.value(code) == Ok(true)
  }

  /**
   The two halves of the read rule agree: the codes a filtered list requires are all held exactly when a
   dashboard that wants those facets, by naming them or by naming none, keeps every one of them.
   */
  lemma ListAndDashboardAgree(facets: seq<Facet>, csv: string, holds: Holds, supplied: set<string>, codes: seq<string>)
    requires forall f | f in facets && f.key in supplied :: Wanted(csv, f)
    requires forall c ::
      c in codes <==> c != "" && exists f :: f in facets && f.key in supplied && f.readPermission == c
    ensures (forall c | c in codes :: Holding(holds, c)) <==>
      forall f | f in facets && f.key in supplied :: f in Chosen(facets, csv, holds)
  {
    ChosenIs(facets, csv, holds);
    if forall f | f in facets && f.key in supplied :: f in Chosen(facets, csv, holds) {
      forall c | c in codes ensures Holding(holds, c) {
        var f :| f in facets && f.key in supplied && f.readPermission == c;
        assert Permitted(holds, f);
      }
    }
    if forall c | c in codes :: Holding(holds, c) {
      forall f | f in facets && f.key in supplied ensures f in Chosen(facets, csv, holds) {
        assert f.readPermission != "" ==> f.readPermission in codes;
      }
    }
  }
}
