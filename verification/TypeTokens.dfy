/** Registry tokens: the collision-free public names of the registered types (pkg/rid/registry.go). */
module TypeTokens {
  import opened Ordering

  const KIND_LINK := 2

  datatype TypeInfo = TypeInfo(service: int, kind: int, code: int, name: string)

  type Triple = (int, int, int)

  function TripleOf(t: TypeInfo): Triple {
    (t.service, t.kind, t.code)
  }

  /** The order of (service, kind, code). */
  predicate Before(a: TypeInfo, b: TypeInfo) {
    || a.service < b.service
    || (a.service == b.service && a.kind < b.kind)
    || (a.service == b.service && a.kind == b.kind && a.code < b.code)
  }

  /** The types of a registry keyed by triple. */
  function TypesIn(names: map<Triple, string>): set<TypeInfo> {
    set k | k in names :: TypeInfo(k.0, k.1, k.2, names[k])
  }

  ghost predicate OneName(types: set<TypeInfo>) {
    forall a, b | a in types && b in types && TripleOf(a) == TripleOf(b) :: a == b
  }

  ghost predicate InOrder(types: seq<TypeInfo>) {
    forall i, j | 0 <= i < j < |types| :: Before(types[i], types[j])
  }

  function SetOf(types: seq<TypeInfo>): set<TypeInfo> {
    set t | t in types
  }

  // ------------------------------------------------------------------ the sorted listing

  method Types(names: map<Triple, string>) returns (types: seq<TypeInfo>)
    ensures InOrder(types)
    ensures forall t :: t in types <==> t in TypesIn(names)
  {
    var out: seq<TypeInfo> := [];
    var left := names.Keys;
    while left != {}
      invariant left <= names.Keys
      invariant forall t :: t in out <==> t in TypesIn(names) && TripleOf(t) !in left
      invariant NoRepeats(out)
      decreases |left|
    {
      var k :| k in left;
      var t := TypeInfo(k.0, k.1, k.2, names[k]);
      assert TripleOf(t) == k;
      out := out + [t];
      left := left - {k};
    }
    assert forall t | t in multiset(out) :: t in TypesIn(names);
    BeforeIsTotal(multiset(out));
    StrictTotalIsWeak(Before, multiset(out));
    types := SortSlice(Before, out);
    SortedDistinct(Before, out, types);
  }

  lemma BeforeIsTotal(s: multiset<TypeInfo>)
    requires forall a, b | a in s && b in s && TripleOf(a) == TripleOf(b) :: a == b
    ensures StrictTotalOn(Before, s)
  {
  }

  // ------------------------------------------------------------------ tokens

  function BaseSlug(t: TypeInfo): string {
    if t.kind == KIND_LINK then "link__" + t.name else t.name
  }

  function ServiceName(services: map<int, string>, service: int): string {
    if service in services then services[service] else ""
  }

  function NamespacedSlug(services: map<int, string>, t: TypeInfo): string {
    if t.kind == KIND_LINK then "link__" + ServiceName(services, t.service) + "_" + t.name
    else ServiceName(services, t.service) + "_" + t.name
  }

  /** Somebody earlier in the registry has the bare slug. */
  ghost predicate Later(types: set<TypeInfo>, t: TypeInfo) {
    exists u :: u in types && BaseSlug(u) == BaseSlug(t) && Before(u, t)
  }

  /** The first holder of a slug keeps it; every later one is namespaced. */
  ghost function Token(types: set<TypeInfo>, services: map<int, string>, t: TypeInfo): string {
    if Later(types, t) then NamespacedSlug(services, t) else BaseSlug(t)
  }

  /** A type's place in the registry: by service, then kind, then code. */
  predicate SortsBefore(a: TypeInfo, b: TypeInfo) {
    if a.service != b.service then a.service < b.service
    else if a.kind != b.kind then a.kind < b.kind
    else a.code < b.code
  }

  /** Links, kind 2, carry a prefix. */
  function Prefix(kind: int): string {
    if kind == 2 then "link__" else ""
  }

  /**
   Tokens by their parts: the name, after "link__" for a link; and with the service's name and an underscore
   before it when a type that sorts earlier has the same prefix and name between them.
   */
  lemma TokenForms(types: set<TypeInfo>, services: map<int, string>, t: TypeInfo)
    ensures Token(types, services, t) ==
      if exists u :: u in types && Prefix(u.kind) + u.name == Prefix(t.kind) + t.name && SortsBefore(u, t)
      then Prefix(t.kind) + (if t.service in services then services[t.service] else "") + "_" + t.name
      else Prefix(t.kind) + t.name
  {
    forall u ensures BaseSlug(u) == Prefix(u.kind) + u.name { assert "" + u.name == u.name; }
    assert "" + ServiceName(services, t.service) + "_" + t.name == ServiceName(services, t.service) + "_" + t.name;
  }

  function Count(types: seq<TypeInfo>, slug: string): nat {
    if types == [] then 0 else
      Count(types[..|types| - 1], slug) + if BaseSlug(types[|types| - 1]) == slug then 1 else 0
  }

  lemma {:induction false} CountAtLeastOne(types: seq<TypeInfo>, slug: string)
    ensures Count(types, slug) >= 1 <==> exists i :: 0 <= i < |types| && BaseSlug(types[i]) == slug
  {
    if types != [] {
      CountAtLeastOne(types[..|types| - 1], slug);
    }
  }

  lemma {:induction false} CountMonotone(types: seq<TypeInfo>, slug: string, i: nat)
    requires i < |types| && BaseSlug(types[i]) == slug
    ensures Count(types, slug) >= Count(types[..i], slug) + 1
    decreases |types|
  {
    var init := types[..|types| - 1];
    if i < |types| - 1 {
      CountMonotone(init, slug, i);
      assert init[..i] == types[..i];
    }
  }

  /** An earlier holder of the same slug makes the count at least two. */
  lemma EarlierCounts(types: seq<TypeInfo>, i: nat, j: nat)
    requires j < i < |types| && BaseSlug(types[j]) == BaseSlug(types[i])
    ensures Count(types, BaseSlug(types[i])) >= 2
  {
    CountMonotone(types, BaseSlug(types[i]), i);
    CountMonotone(types[..i], BaseSlug(types[i]), j);
    CountAtLeastOne(types[..i], BaseSlug(types[i]));
  }

  lemma CountStep(types: seq<TypeInfo>, i: nat, slug: string)
    requires i < |types|
    ensures Count(types[..i + 1], slug) == Count(types[..i], slug) + if BaseSlug(types[i]) == slug then 1 else 0
  {
    assert types[..i + 1][..i] == types[..i];
  }

  /** The tally of the types seen: a slug not in it has not been held. */
  ghost predicate Tallied(types: seq<TypeInfo>, slugCount: map<string, nat>) {
    forall s :: Count(types, s) == if s in slugCount then slugCount[s] else 0
  }

  method CountSlugs(types: seq<TypeInfo>) returns (slugCount: map<string, nat>)
    ensures forall i | 0 <= i < |types| :: BaseSlug(types[i]) in slugCount
    ensures forall s | s in slugCount :: slugCount[s] == Count(types, s)
  {
    slugCount := map[];
    for i := 0 to |types|
      invariant forall j | 0 <= j < i :: BaseSlug(types[j]) in slugCount
      invariant Tallied(types[..i], slugCount)
    {
      var slug := BaseSlug(types[i]);
      forall s { CountStep(types, i, s); }
      slugCount := slugCount[slug := (if slug in slugCount then slugCount[slug] else 0) + 1];
    }
    assert types[..|types|] == types;
  }

  /** A slug is claimed once a type before index i holds it and it is held more than once. */
  ghost predicate Claimed(types: seq<TypeInfo>, i: nat, claimed: set<string>)
    requires i <= |types|
  {
    forall s :: s in claimed <==> Count(types, s) >= 2 && Holds(types[..i], s)
  }

  ghost predicate Holds(types: seq<TypeInfo>, slug: string) {
    exists j :: 0 <= j < |types| && BaseSlug(types[j]) == slug
  }

  lemma HoldsNext(types: seq<TypeInfo>, i: nat, slug: string)
    requires i < |types|
    ensures Holds(types[..i + 1], slug) <==> Holds(types[..i], slug) || BaseSlug(types[i]) == slug
  {
  }

  ghost predicate NamedSoFar(types: seq<TypeInfo>, services: map<int, string>, i: nat, out: map<TypeInfo, string>)
    requires i <= |types|
  {
    && (forall t :: t in out <==> t in types[..i])
    && forall t | t in out :: out[t] == Token(SetOf(types), services, t)
  }

  method TokenOf(types: seq<TypeInfo>, services: map<int, string>) returns (out: map<TypeInfo, string>)
    requires InOrder(types)
    ensures forall t :: t in out <==> t in types
    ensures forall t | t in types :: out[t] == Token(SetOf(types), services, t)
  {
    var slugCount := CountSlugs(types);
    var claimed: set<string> := {};
    out := map[];
    for i := 0 to |types|
      invariant NamedSoFar(types, services, i, out)
      invariant Claimed(types, i, claimed)
    {
      var token;
      token, claimed := NameNext(types, services, slugCount, i, claimed);
      NamedNext(types, services, i, out, token);
      out := out[types[i] := token];
    }
    assert types[..|types|] == types;
  }

  /** One type's turn: namespaced when the slug is taken, else it takes the slug if others hold it too. */
  method NameNext(types: seq<TypeInfo>, services: map<int, string>, slugCount: map<string, nat>, i: nat,
                  claimed: set<string>)
    returns (token: string, now: set<string>)
    requires InOrder(types) && i < |types| && Claimed(types, i, claimed)
    requires BaseSlug(types[i]) in slugCount && slugCount[BaseSlug(types[i])] == Count(types, BaseSlug(types[i]))
    ensures token == Token(SetOf(types), services, types[i])
    ensures Claimed(types, i + 1, now)
  {
    var t := types[i];
    var slug := BaseSlug(t);
    LaterIffClaimed(types, i, claimed);
    ClaimedNext(types, i, claimed);
    token, now := slug, claimed;
    if slugCount[slug] > 1 {
      if slug in claimed {
        token := NamespacedSlug(services, t);
        assert claimed + {slug} == claimed;
      } else {
        now := claimed + {slug};
      }
    }
  }

  lemma NamedNext(types: seq<TypeInfo>, services: map<int, string>, i: nat, out: map<TypeInfo, string>, token: string)
    requires i < |types| && NamedSoFar(types, services, i, out) && token == Token(SetOf(types), services, types[i])
    ensures NamedSoFar(types, services, i + 1, out[types[i] := token])
  {
  }

  /** What the loop decides: namespaced exactly when the slug is already claimed. */
  lemma LaterIffClaimed(types: seq<TypeInfo>, i: nat, claimed: set<string>)
    requires InOrder(types) && i < |types| && Claimed(types, i, claimed)
    ensures Later(SetOf(types), types[i]) <==> Count(types, BaseSlug(types[i])) > 1 && BaseSlug(types[i]) in claimed
  {
    var slug := BaseSlug(types[i]);
    LaterIffHeldBefore(types, i);
    if Holds(types[..i], slug) {
      var j :| 0 <= j < i && BaseSlug(types[..i][j]) == slug;
      EarlierCounts(types, i, j);
    }
  }

  lemma ClaimedNext(types: seq<TypeInfo>, i: nat, claimed: set<string>)
    requires i < |types| && Claimed(types, i, claimed)
    ensures Claimed(types, i + 1,
      if Count(types, BaseSlug(types[i])) > 1 then claimed + {BaseSlug(types[i])} else claimed)
  {
    forall s { HoldsNext(types, i, s); }
  }

  lemma LaterIffHeldBefore(types: seq<TypeInfo>, i: nat)
    requires InOrder(types) && i < |types|
    ensures Later(SetOf(types), types[i]) <==> Holds(types[..i], BaseSlug(types[i]))
  {
  }

  // ------------------------------------------------------------------ no two types share a token

  ghost predicate Injective(types: set<TypeInfo>, services: map<int, string>) {
    forall a, b | a in types && b in types && Token(types, services, a) == Token(types, services, b) :: a == b
  }

  lemma {:induction false} FirstHolder(types: set<TypeInfo>, t: TypeInfo) returns (f: TypeInfo)
    requires OneName(types) && t in types
    ensures f in types && BaseSlug(f) == BaseSlug(t) && !Later(types, f)
    decreases |set u | u in types && Before(u, t)|
  {
    if Later(types, t) {
      var u :| u in types && BaseSlug(u) == BaseSlug(t) && Before(u, t);
      var below, under := set x | x in types && Before(x, t), set x | x in types && Before(x, u);
      assert under <= below - {u} && u in below;
      FewerBelow(under, below, u);
      f := FirstHolder(types, u);
    } else {
      f := t;
    }
  }

  lemma FewerBelow(a: set<TypeInfo>, b: set<TypeInfo>, u: TypeInfo)
    requires a <= b - {u} && u in b
    ensures |a| < |b|
  {
    var c := b - {u};
    assert c == a + (c - a);
  }

  ghost predicate ApartFrom(types: set<TypeInfo>, services: map<int, string>) {
    && (forall t, u | t in types && Later(types, t) && u in types :: NamespacedSlug(services, t) != BaseSlug(u))
    && (forall t, u | t in types && Later(types, t) && u in types && Later(types, u) && t != u ::
          NamespacedSlug(services, t) != NamespacedSlug(services, u))
  }

  /**
   Tokens are unique exactly when each namespaced one misses every bare slug and every other namespaced
   one. (Every bare slug is somebody's token: its first holder's.)
   */
  lemma TokensUniqueIff(types: set<TypeInfo>, services: map<int, string>)
    requires OneName(types)
    ensures Injective(types, services) <==> ApartFrom(types, services)
  {
    if Injective(types, services) {
      forall t, u | t in types && Later(types, t) && u in types
        ensures NamespacedSlug(services, t) != BaseSlug(u)
      {
        var f := FirstHolder(types, u);
        assert Token(types, services, f) == BaseSlug(u);
      }
      forall t, u | t in types && Later(types, t) && u in types && u != t && Later(types, u)
        ensures NamespacedSlug(services, t) != NamespacedSlug(services, u)
      {
        assert Token(types, services, t) != Token(types, services, u);
      }
    }
    if ApartFrom(types, services) {
      forall a, b | a in types && b in types && Token(types, services, a) == Token(types, services, b) ensures a == b {
        if !Later(types, a) && !Later(types, b) {
          OneFirstHolder(types, a, b);
        }
      }
    }
  }

  lemma OneFirstHolder(types: set<TypeInfo>, a: TypeInfo, b: TypeInfo)
    requires OneName(types) && a in types && b in types && BaseSlug(a) == BaseSlug(b)
    requires !Later(types, a) && !Later(types, b)
    ensures a == b
  {
  }

  /** The condition as the registry's authors would check it: by service and slug. */
  lemma TokensUnique(types: set<TypeInfo>, services: map<int, string>)
    requires OneName(types)
    requires forall t, u | t in types && u in types && t != u ::
      NamespacedSlug(services, t) != NamespacedSlug(services, u)
    requires forall t, u | t in types && u in types :: NamespacedSlug(services, t) != BaseSlug(u)
    ensures Injective(types, services)
  {
  }

  const SHARED := TypeInfo(1, 1, 1, "x")

  const RENAMED := TypeInfo(2, 1, 1, "x")

  const PLAIN := TypeInfo(3, 1, 1, "a_x")

  /** A namespaced slug can be another type's bare name: then two types share a token. */
  lemma TokensCanCollide()
    ensures OneName({SHARED, RENAMED, PLAIN})
    ensures !Injective({SHARED, RENAMED, PLAIN}, map[1 := "s", 2 := "a", 3 := "t"])
  {
    var types, services := {SHARED, RENAMED, PLAIN}, map[1 := "s", 2 := "a", 3 := "t"];
    assert SHARED in types && Later(types, RENAMED);
    assert BaseSlug(SHARED)[0] != BaseSlug(PLAIN)[0];
    assert Token(types, services, RENAMED) == Token(types, services, PLAIN);
  }

  // ------------------------------------------------------------------ growing the registry

  /**
   Registering more types changes a token exactly when its holder kept the bare slug and a newcomer with
   the same slug sorts before it; types appended after all holders of their slugs change none.
   */
  lemma TokenStableIff(types: set<TypeInfo>, more: set<TypeInfo>, services: map<int, string>, t: TypeInfo)
    requires t in types
    ensures Token(types + more, services, t) == Token(types, services, t) <==>
      || Later(types, t)
      || NamespacedSlug(services, t) == BaseSlug(t)
      || forall u | u in more && BaseSlug(u) == BaseSlug(t) :: !Before(u, t)
  {
  }

  // ------------------------------------------------------------------ the reverse table

  /** Whatever order the map yields, a unique token leads back to its type. */
  method Reverse(tokenOf: map<TypeInfo, string>) returns (typeOf: map<string, TypeInfo>)
    ensures forall k | k in typeOf :: typeOf[k] in tokenOf && tokenOf[typeOf[k]] == k
    ensures forall t | t in tokenOf :: tokenOf[t] in typeOf
    ensures (forall a, b | a in tokenOf && b in tokenOf && tokenOf[a] == tokenOf[b] :: a == b) ==>
      forall t | t in tokenOf :: typeOf[tokenOf[t]] == t
  {
    typeOf := map[];
    var left := tokenOf.Keys;
    while left != {}
      invariant left <= tokenOf.Keys
      invariant forall k | k in typeOf :: typeOf[k] in tokenOf && tokenOf[typeOf[k]] == k
      invariant forall t | t in tokenOf && t !in left :: tokenOf[t] in typeOf
      decreases |left|
    {
      var t :| t in left;
      typeOf := typeOf[tokenOf[t] := t];
      left := left - {t};
    }
  }

  lemma TypesInHaveOneName(names: map<Triple, string>)
    ensures OneName(TypesIn(names))
  {
    forall a, b | a in TypesIn(names) && b in TypesIn(names) && TripleOf(a) == TripleOf(b) ensures a == b {
      assert a.name == names[TripleOf(a)] && b.name == names[TripleOf(b)];
    }
  }

  /** The reverse table names only registered types by their own tokens, and all of them when tokens are apart. */
  method Tokens(names: map<Triple, string>, services: map<int, string>) returns (typeOf: map<string, TypeInfo>)
    ensures forall k | k in typeOf :: typeOf[k] in TypesIn(names) && Token(TypesIn(names), services, typeOf[k]) == k
    ensures forall t | t in TypesIn(names) :: Token(TypesIn(names), services, t) in typeOf
    ensures ApartFrom(TypesIn(names), services) ==>
      forall t | t in TypesIn(names) :: typeOf[Token(TypesIn(names), services, t)] == t
  {
    var types := Types(names);
    assert SetOf(types) == TypesIn(names);
    var tokenOf := TokenOf(types, services);
    TypesInHaveOneName(names);
    TokensUniqueIff(TypesIn(names), services);
    typeOf := Reverse(tokenOf);
  }
}
