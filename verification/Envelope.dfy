/**
 Envelope encryption: the local-dev key provider, the DEK cache and the cipher over them
 (pkg/crypto/crypto.go and pkg/crypto/localdev.go).

 AES-GCM is ideal (sections 7.1 and 7.2 of NIST SP 800-38D): an authenticated blob remembers the key
 that sealed it, opens under that key alone, and anything else is `Junk` that no key opens. Nonces, DEKs
 and clock readings are parameters, and so are SHA-256 (as the key fingerprint) and HMAC-SHA256.
 */
module Envelope {
  import opened Octets
  import opened Wrappers

  const DEK_LEN := 32
  const KEK_LEN := 32

  // ------------------------------------------------------------------ AEAD

  datatype Blob = Box(key: Bytes, nonce: nat, plain: Bytes) | Junk(raw: Bytes)

  predicate AesKey(key: Bytes) {
    |key| == 16 || |key| == 24 || |key| == 32
  }

  function AeadSeal(key: Bytes, nonce: nat, plain: Bytes): Option<Blob> {
    if AesKey(key) then Some(Box(key, nonce, plain)) else None
  }

  function AeadOpen(key: Bytes, blob: Blob): Option<Bytes> {
    if AesKey(key) && blob.Box? && blob.key == key then Some(blob.plain) else None
  }

  /** Both work under a key of one of the three AES sizes, and under no other. */
  lemma AesSizes(key: Bytes, nonce: nat, plain: Bytes)
    ensures AeadSeal(key, nonce, plain).Some? <==> |key| in {16, 24, 32}
    ensures AeadOpen(key, Box(key, nonce, plain)).Some? <==> |key| in {16, 24, 32}
  {
  }

  // ------------------------------------------------------------------ key provider

  /** `keks` holds the active key first, then the previous ones in fallback order. */
  datatype Provider = Provider(active: Bytes, keks: seq<Bytes>, keyRef: string) {
    ghost predicate Valid() {
      && |keks| > 0 && keks[0] == active
      && forall k | k in keks :: |k| == KEK_LEN
    }
  }

  datatype ProviderError = BadActive(len: nat) | BadPrevious(index: nat, len: nat)

  method NewProvider(fingerprint: Bytes -> string, active: Bytes, previous: seq<Bytes>)
    returns (r: Result<Provider, ProviderError>)
    ensures r.Ok? <==> |active| == 32 && forall p | p in previous :: |p| == 32
    ensures r.Ok? ==> r.value == Provider(active, [active] + previous, fingerprint(active)) && r.value.Valid()
    ensures r.Err? && r.error.BadActive? ==> r.error.len == |active| != KEK_LEN
    ensures r.Err? && r.error.BadPrevious? ==>
              && |active| == KEK_LEN
              && r.error.index < |previous| && r.error.len == |previous[r.error.index]| != KEK_LEN
              && forall i | 0 <= i < r.error.index :: |previous[i]| == KEK_LEN
  {
    if |active| != KEK_LEN {
      return Err(BadActive(|active|));
    }
    var keks := [active];
    for i := 0 to |previous|
      invariant keks == [active] + previous[..i]
      invariant forall j | 0 <= j < i :: |previous[j]| == KEK_LEN
    {
      if |previous[i]| != KEK_LEN {
        assert previous[i] in previous;
        return Err(BadPrevious(i, |previous[i]|));
      }
      keks := keks + [previous[i]];
    }
    return Ok(Provider(keks[0], keks, fingerprint(keks[0])));
  }

  function Wrap(p: Provider, nonce: nat, dek: Bytes): Option<Blob> {
    if dek == [] then None else AeadSeal(p.active, nonce, dek)
  }

  /** What unwrapping means, with no search in it: the key that boxed the DEK is among those held. */
  function Unwrapped(p: Provider, wrapped: Blob): Option<Bytes> {
    if wrapped.Box? && wrapped.key in p.keks && AesKey(wrapped.key) then Some(wrapped.plain) else None
  }

  /** The active-then-previous search finds the DEK exactly when some held key boxed it. */
  method Unwrap(p: Provider, wrapped: Blob) returns (r: Option<Bytes>)
    ensures r == Unwrapped(p, wrapped)
  {
    for i := 0 to |p.keks|
      invariant forall j | 0 <= j < i :: AeadOpen(p.keks[j], wrapped) == None
    {
      var dek := AeadOpen(p.keks[i], wrapped);
      if dek.Some? {
        return dek;
      }
    }
    return None;
  }

  // ------------------------------------------------------------------ seal, open, rewrap

  datatype Sealed = Sealed(ciphertext: Blob, wrapped: Blob, keyRef: string)

  type Dek = d: Bytes | |d| == DEK_LEN witness seq(DEK_LEN, _ => 0)

  function SealWith(p: Provider, dek: Dek, valueNonce: nat, wrapNonce: nat, plaintext: Bytes): Option<Sealed> {
    match (AeadSeal(dek, valueNonce, plaintext), Wrap(p, wrapNonce, dek))
    case (Some(c), Some(w)) => Some(Sealed(c, w, p.keyRef))
    case _ => None
  }

  function OpenUncached(p: Provider, ciphertext: Blob, wrapped: Blob): Option<Bytes> {
    match Unwrapped(p, wrapped)
    case Some(dek) => AeadOpen(dek, ciphertext)
    case None => None
  }

  function Rewrapped(p: Provider, nonce: nat, wrapped: Blob): Option<(Blob, string)> {
    match Unwrapped(p, wrapped)
    case None => None
    case Some(dek) =>
      match Wrap(p, nonce, dek)
      case None => None
      case Some(w) => Some((w, p.keyRef))
  }

  /** A sealed value opens to its plaintext under exactly the providers that hold the sealing key. */
  lemma SealedOpensIff(sealer: Provider, opener: Provider, dek: Dek, vn: nat, wn: nat, plaintext: Bytes)
    requires sealer.Valid()
    ensures SealWith(sealer, dek, vn, wn, plaintext).Some?
    ensures Unwrapped(sealer, SealWith(sealer, dek, vn, wn, plaintext).value.wrapped) == Some(dek) && |dek| == 32
    ensures
      var s := SealWith(sealer, dek, vn, wn, plaintext).value;
      OpenUncached(opener, s.ciphertext, s.wrapped) == if sealer.active in opener.keks then Some(plaintext) else None
  {
  }

  /**
   Rewrapping moves a value from one key to another: whatever opened before opens to the same plaintext
   afterwards, now under exactly the providers that hold the active key.
   */
  lemma RewrapMoves(p: Provider, opener: Provider, nonce: nat, ciphertext: Blob, wrapped: Blob)
    requires p.Valid() && OpenUncached(p, ciphertext, wrapped).Some?
    ensures Rewrapped(p, nonce, wrapped).Some?
    ensures
      var (w, ref) := Rewrapped(p, nonce, wrapped).value;
      && ref == p.keyRef
      && OpenUncached(opener, ciphertext, w) ==
           if p.active in opener.keks then OpenUncached(p, ciphertext, wrapped) else None
  {
  }

  // ------------------------------------------------------------------ DEK cache

  datatype Entry = Entry(dek: Bytes, expiry: int)
  type Entries = map<Blob, Entry>

  function CachePut(ttl: int, m: Entries, wrapped: Blob, dek: Bytes, now: int): Entries {
    if ttl <= 0 then m else m[wrapped := Entry(dek, now + ttl)]
  }

  function CacheGet(ttl: int, m: Entries, wrapped: Blob, now: int): (Option<Bytes>, Entries) {
    if ttl <= 0 || wrapped !in m then (None, m)
    else if now > m[wrapped].expiry then (None, m - {wrapped})
    else (Some(m[wrapped].dek), m)
  }

  datatype CacheOp = PutOp(wrapped: Blob, dek: Bytes, at: int) | GetOp(wrapped: Blob, at: int)

  function Replay(ttl: int, history: seq<CacheOp>): Entries {
    if history == [] then map[] else
      var m := Replay(ttl, history[..|history| - 1]);
      match history[|history| - 1]
      case PutOp(w, dek, at) => CachePut(ttl, m, w, dek, at)
      case GetOp(w, at) => CacheGet(ttl, m, w, at).1
  }

  function LatestPut(history: seq<CacheOp>, wrapped: Blob): Option<(Bytes, int)> {
    if history == [] then None else
      var last := history[|history| - 1];
      if last.PutOp? && last.wrapped == wrapped then Some((last.dek, last.at))
      else LatestPut(history[..|history| - 1], wrapped)
  }

  ghost predicate ClockMonotone(history: seq<CacheOp>, now: int) {
    && (forall i, j | 0 <= i < j < |history| :: history[i].at <= history[j].at)
    && (forall i | 0 <= i < |history| :: history[i].at <= now)
  }

  /**
   The cache, evictions and all, is exactly "the latest put of this key, if not older than the TTL":
   a hit never comes later, and a put that young never misses.
   */
  lemma CacheIsLatestPut(ttl: int, history: seq<CacheOp>, wrapped: Blob, now: int)
    requires ClockMonotone(history, now)
    ensures CacheGet(ttl, Replay(ttl, history), wrapped, now).0 ==
      match LatestPut(history, wrapped)
      case Some((dek, at)) => if ttl > 0 && now <= at + ttl then Some(dek) else None
      case None => None
  {
    ReplayHoldsLatestPut(ttl, history, wrapped, now);
  }

  lemma {:induction false} ReplayHoldsLatestPut(ttl: int, history: seq<CacheOp>, w: Blob, now: int)
    requires ClockMonotone(history, now)
    ensures
      var m, put := Replay(ttl, history), LatestPut(history, w);
      && (w in m ==> ttl > 0 && put.Some? && m[w] == Entry(put.value.0, put.value.1 + ttl))
      && (w !in m && ttl > 0 && put.Some? ==> now > put.value.1 + ttl)
  {
    if history != [] {
      var last := history[|history| - 1];
      ReplayHoldsLatestPut(ttl, history[..|history| - 1], w, last.at);
    }
  }

  /** Every entry is what the provider itself would answer. */
  ghost predicate Coherent(p: Provider, m: Entries) {
    forall w | w in m :: Unwrapped(p, w) == Some(m[w].dek)
  }

  // ------------------------------------------------------------------ runs of the cipher

  datatype CipherOp =
    | SealOp(plaintext: Bytes, dek: Dek, valueNonce: nat, wrapNonce: nat, at: int)
    | OpenOp(ciphertext: Blob, wrapped: Blob, getAt: int, putAt: int)

  datatype Answer = SealedAs(sealed: Option<Sealed>) | OpenedAs(plaintext: Option<Bytes>)

  /** One call, as crypto.go makes it: `Open` consults the cache, else unwraps and fills it. */
  function Exec(p: Provider, ttl: int, m: Entries, op: CipherOp): (Answer, Entries) {
    match op
    case SealOp(plaintext, dek, vn, wn, at) =>
      var s := SealWith(p, dek, vn, wn, plaintext);
      (SealedAs(s), if s.Some? then CachePut(ttl, m, s.value.wrapped, dek, at) else m)
    case OpenOp(ciphertext, wrapped, getAt, putAt) =>
      var (hit, m') := CacheGet(ttl, m, wrapped, getAt);
      match hit
      case Some(dek) => (OpenedAs(AeadOpen(dek, ciphertext)), m')
      case None =>
        match Unwrapped(p, wrapped)
        case None => (OpenedAs(None), m')
        case Some(dek) => (OpenedAs(AeadOpen(dek, ciphertext)), CachePut(ttl, m', wrapped, dek, putAt))
  }

  function ExecAll(p: Provider, ttl: int, m: Entries, ops: seq<CipherOp>): seq<Answer>
    decreases |ops|
  {
    if ops == [] then [] else
      var (a, m') := Exec(p, ttl, m, ops[0]);
      [a] + ExecAll(p, ttl, m', ops[1..])
  }

  lemma ExecCoherent(p: Provider, ttl: int, m: Entries, op: CipherOp)
    requires p.Valid() && Coherent(p, m)
    ensures Coherent(p, Exec(p, ttl, m, op).1)
    ensures op.OpenOp? ==>
      Exec(p, ttl, m, op).0 == OpenedAs(OpenUncached(p, op.ciphertext, op.wrapped))
  {
  }

  /** What a call answers by itself, with no cache. */
  function Alone(p: Provider, op: CipherOp): Answer {
    match op
    case SealOp(plaintext, dek, vn, wn, _) => SealedAs(SealWith(p, dek, vn, wn, plaintext))
    case OpenOp(ciphertext, wrapped, _, _) => OpenedAs(OpenUncached(p, ciphertext, wrapped))
  }

  /**
   Caching is invisible: however seals, opens, clock readings and expiries interleave, the answers are, call by
   call and in their order, those each would give alone with no cache.
   */
  lemma {:induction false} CacheTransparent(p: Provider, ttl: int, m: Entries, ops: seq<CipherOp>)
    requires p.Valid() && Coherent(p, m)
    ensures |ExecAll(p, ttl, m, ops)| == |ops|
    ensures forall i | 0 <= i < |ops| :: ExecAll(p, ttl, m, ops)[i] == Alone(p, ops[i])
    decreases |ops|
  {
    if ops != [] {
      ExecCoherent(p, ttl, m, ops[0]);
      CacheTransparent(p, ttl, Exec(p, ttl, m, ops[0]).1, ops[1..]);
    }
  }

  // ------------------------------------------------------------------ calls that overlap

  /** A call of Open that missed: its arguments, kept until it unwraps and fills the cache. */
  datatype Call = Call(ciphertext: Blob, wrapped: Blob)
  datatype Shared = Shared(m: Entries, missed: map<nat, Call>)

  /** The cache is locked for one lookup or one fill at a time, so other calls may come between them. */
  datatype Event =
    | Sealing(plaintext: Bytes, dek: Dek, valueNonce: nat, wrapNonce: nat, at: int)
    | Lookup(call: nat, ciphertext: Blob, wrapped: Blob, at: int)
    | Fill(call: nat, at: int)

  /** What an event answers, if it ends its call. */
  function Happen(p: Provider, ttl: int, s: Shared, e: Event): (Option<Answer>, Shared) {
    match e
    case Sealing(plaintext, dek, vn, wn, at) =>
      var (a, m') := Exec(p, ttl, s.m, SealOp(plaintext, dek, vn, wn, at));
      (Some(a), s.(m := m'))
    case Lookup(call, ciphertext, wrapped, at) =>
      var (hit, m') := CacheGet(ttl, s.m, wrapped, at);
      (match hit
       case Some(dek) => (Some(OpenedAs(AeadOpen(dek, ciphertext))), Shared(m', s.missed - {call}))
       case None => (None, Shared(m', s.missed[call := Call(ciphertext, wrapped)])))
    case Fill(call, at) =>
      if call !in s.missed then (None, s) else
        var Call(ciphertext, wrapped) := s.missed[call];
        match Unwrapped(p, wrapped)
        case None => (Some(OpenedAs(None)), s.(missed := s.missed - {call}))
        case Some(dek) =>
          (Some(OpenedAs(AeadOpen(dek, ciphertext))),
           Shared(CachePut(ttl, s.m, wrapped, dek, at), s.missed - {call}))
  }

  function Happened(p: Provider, ttl: int, m: Entries, es: seq<Event>): Shared {
    if es == [] then Shared(m, map[])
    else Happen(p, ttl, Happened(p, ttl, m, es[..|es| - 1]), es[|es| - 1]).1
  }

  /** The latest lookup of a call. */
  function Asked(es: seq<Event>, call: nat): Option<Call> {
    if es == [] then None else
      var last := es[|es| - 1];
      if last.Lookup? && last.call == call then Some(Call(last.ciphertext, last.wrapped))
      else Asked(es[..|es| - 1], call)
  }

  lemma {:induction false} HappenedCoherent(p: Provider, ttl: int, m: Entries, es: seq<Event>)
    requires p.Valid() && Coherent(p, m)
    ensures Coherent(p, Happened(p, ttl, m, es).m)
    ensures forall call | call in Happened(p, ttl, m, es).missed ::
      Asked(es, call) == Some(Happened(p, ttl, m, es).missed[call])
  {
    if es != [] {
      HappenedCoherent(p, ttl, m, es[..|es| - 1]);
      var s, e := Happened(p, ttl, m, es[..|es| - 1]), es[|es| - 1];
      if e.Sealing? { ExecCoherent(p, ttl, s.m, SealOp(e.plaintext, e.dek, e.valueNonce, e.wrapNonce, e.at)); }
    }
  }

  function AnswerTo(p: Provider, c: Call): Answer {
    OpenedAs(OpenUncached(p, c.ciphertext, c.wrapped))
  }

  /**
   Caching is invisible to concurrent callers too: however the lookups, fills, seals and expiries of any
   number of calls interleave, a seal answers what it would alone, an open that is answered at its lookup or
   at its fill answers what unwrapping its own arguments gives, and one that missed is answered by its fill.
   */
  lemma OverlapTransparent(p: Provider, ttl: int, m: Entries, es: seq<Event>, k: nat)
    requires p.Valid() && Coherent(p, m) && k < |es|
    ensures
      var a := Happen(p, ttl, Happened(p, ttl, m, es[..k]), es[k]).0;
      match es[k]
      case Sealing(plaintext, dek, vn, wn, at) => a == Some(SealedAs(SealWith(p, dek, vn, wn, plaintext)))
      case Lookup(_, ciphertext, wrapped, _) => a.Some? ==> a == Some(OpenedAs(OpenUncached(p, ciphertext, wrapped)))
      case Fill(call, _) =>
        if call !in Happened(p, ttl, m, es[..k]).missed then a == None
        else Asked(es[..k], call).Some? && a == Some(AnswerTo(p, Asked(es[..k], call).value))
  {
    HappenedCoherent(p, ttl, m, es[..k]);
  }

  /** A call that missed waits, whatever the others do, until it fills or looks up again. */
  lemma {:induction false} MissWaits(p: Provider, ttl: int, m: Entries, es: seq<Event>, k: nat, call: nat)
    requires k <= |es| && call in Happened(p, ttl, m, es[..k]).missed
    requires forall j | k <= j < |es| :: !es[j].Sealing? ==> es[j].call != call
    ensures call in Happened(p, ttl, m, es).missed
    ensures Happened(p, ttl, m, es).missed[call] == Happened(p, ttl, m, es[..k]).missed[call]
  {
    if k == |es| {
      assert es[..k] == es;
    } else {
      var init := es[..|es| - 1];
      assert init[..k] == es[..k];
      MissWaits(p, ttl, m, init, k, call);
    }
  }

  /** With nothing in between, a lookup and its fill are one call of Open. */
  lemma LookupFillIsOpen(p: Provider, ttl: int, s: Shared, call: nat, ciphertext: Blob, wrapped: Blob,
                         at: int, at': int)
    requires call !in s.missed
    ensures
      var (first, s1) := Happen(p, ttl, s, Lookup(call, ciphertext, wrapped, at));
      var (second, s2) := Happen(p, ttl, s1, Fill(call, at'));
      var (a, m') := Exec(p, ttl, s.m, OpenOp(ciphertext, wrapped, at, at'));
      && (first.Some? <==> second.None?) && a == (if first.Some? then first.value else second.value)
      && s2 == Shared(m', s.missed)
  {
  }

  // ------------------------------------------------------------------ the stateful objects

  class DekCache {
    const ttl: int
    var m: Entries

    constructor (ttl: int)
      ensures this.ttl == ttl && m == map[]
    {
      this.ttl := ttl;
      m := map[];
    }

    method Put(wrapped: Blob, dek: Bytes, now: int)
      modifies this
      ensures m == CachePut(ttl, old(m), wrapped, dek, now)
    {
      if ttl <= 0 {
        return;
      }
      m := m[wrapped := Entry(dek, now + ttl)];
    }

    method Get(wrapped: Blob, now: int) returns (hit: Option<Bytes>)
      modifies this
      ensures (hit, m) == CacheGet(ttl, old(m), wrapped, now)
    {
      if ttl <= 0 {
        return None;
      }
      if wrapped !in m {
        return None;
      }
      var e := m[wrapped];
      if now > e.expiry {
        m := m - {wrapped};
        return None;
      }
      return Some(e.dek);
    }
  }

  class Cipher {
    const provider: Provider
    const blindKey: Bytes
    const index: Bytes -> Bytes
    const cache: DekCache

    ghost predicate Valid()
      reads this, cache
    {
      provider.Valid() && blindKey != [] && Coherent(provider, cache.m)
    }

    constructor (provider: Provider, blindKey: Bytes, ttl: int, mac: (Bytes, Bytes) -> Bytes)
      requires provider.Valid() && blindKey != []
      ensures Valid() && fresh(cache)
      ensures this.provider == provider && this.blindKey == blindKey
      ensures forall value :: BlindIndex(value) == mac(blindKey, value)
      ensures cache.ttl == ttl && cache.m == map[]
    {
      this.provider, this.blindKey := provider, blindKey;
      this.index := value => mac(blindKey, value);
      cache := new DekCache(ttl);
    }

    method Seal(plaintext: Bytes, dek: Dek, valueNonce: nat, wrapNonce: nat, now: int)
      returns (r: Option<Sealed>)
      requires Valid()
      modifies cache
      ensures Valid()
      ensures (SealedAs(r), cache.m) ==
                Exec(provider, cache.ttl, old(cache.m), SealOp(plaintext, dek, valueNonce, wrapNonce, now))
      ensures r.Some? && OpenUncached(provider, r.value.ciphertext, r.value.wrapped) == Some(plaintext)
    {
      SealedOpensIff(provider, provider, dek, valueNonce, wrapNonce, plaintext);
      assert provider.active in provider.keks;
      var ciphertext := AeadSeal(dek, valueNonce, plaintext);
      if ciphertext.None? {
        return None;
      }
      var wrapped := Wrap(provider, wrapNonce, dek);
      if wrapped.None? {
        return None;
      }
      cache.Put(wrapped.value, dek, now);
      return Some(Sealed(ciphertext.value, wrapped.value, provider.keyRef));
    }

    /** A cached cipher answers what the provider alone would. */
    method Open(ciphertext: Blob, wrapped: Blob, getAt: int, putAt: int) returns (r: Option<Bytes>)
      requires Valid()
      modifies cache
      ensures Valid()
      ensures r == OpenUncached(provider, ciphertext, wrapped)
      ensures (OpenedAs(r), cache.m) ==
                Exec(provider, cache.ttl, old(cache.m), OpenOp(ciphertext, wrapped, getAt, putAt))
    {
      ExecCoherent(provider, cache.ttl, cache.m, OpenOp(ciphertext, wrapped, getAt, putAt));
      var dek := cache.Get(wrapped, getAt);
      if dek.None? {
        dek := Unwrap(provider, wrapped);
        if dek.None? {
          return None;
        }
        cache.Put(wrapped, dek.value, putAt);
      }
      return AeadOpen(dek.value, ciphertext);
    }

    method Rewrap(wrapped: Blob, nonce: nat) returns (r: Option<(Blob, string)>)
      requires Valid()
      ensures r == Rewrapped(provider, nonce, wrapped)
    {
      var dek := Unwrap(provider, wrapped);
      if dek.None? {
        return None;
      }
      var w := Wrap(provider, nonce, dek.value);
      if w.None? {
        return None;
      }
      return Some((w.value, provider.keyRef));
    }

    function BlindIndex(value: Bytes): Bytes {
      index(value)
    }
  }

  datatype CipherError = ProviderRequired | BlindIndexKeyRequired

  method NewCipher(provider: Option<Provider>, blindKey: Bytes, ttl: int, mac: (Bytes, Bytes) -> Bytes)
    returns (r: Result<Cipher, CipherError>)
    requires provider.Some? ==> provider.value.Valid()
    ensures r.Ok? <==> provider.Some? && blindKey != []
    ensures r.Ok? ==> r.value.Valid() && fresh(r.value) && fresh(r.value.cache)
    ensures r.Ok? ==> r.value.provider == provider.value && r.value.blindKey == blindKey
    ensures r.Ok? ==> forall value :: r.value.BlindIndex(value) == mac(blindKey, value)
    ensures r.Ok? ==> r.value.cache.ttl == ttl && r.value.cache.m == map[]
    ensures r.Err? ==> r.error == if provider.None? then ProviderRequired else BlindIndexKeyRequired
  {
    if provider.None? {
      return Err(ProviderRequired);
    }
    if |blindKey| == 0 {
      return Err(BlindIndexKeyRequired);
    }
    var cipher := new Cipher(provider.value, blindKey, ttl, mac);
    return Ok(cipher);
  }
}
