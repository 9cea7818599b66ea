/** Page tokens and page sizes (pkg/listing/listing.go), and paging over them (cmd/oikumenea/search_providers.go). */
module Listing {
  import opened Base64
  import opened Octets
  import opened Wrappers
  import Text

  const SEP: Byte := 0x1f

  datatype TokenError = InvalidPageToken

  // ------------------------------------------------------------------ the tolerant decoder

  const ACCEPTED: seq<Encoding> := [RAW_URL, STD, URL, RAW_STD]

  /** The first encoding that accepts the token decides; any other that accepts it would say the same. */
  method DecodeBase64(token: string) returns (r: Result<Bytes, TokenError>)
    ensures r.Ok? <==> exists e :: Decode(e, token).Some?
    ensures forall e | Decode(e, token).Some? :: r == Ok(Decode(e, token).value)
  {
    for i := 0 to |ACCEPTED|
      invariant forall j | 0 <= j < i :: Decode(ACCEPTED[j], token).None?
    {
      var raw := Decode(ACCEPTED[i], token);
      if raw.Some? {
        forall e | Decode(e, token).Some? ensures Decode(e, token) == raw {
          DecodersAgree(e, ACCEPTED[i], token);
        }
        return Ok(raw.value);
      }
    }
    forall e: Encoding ensures Decode(e, token).None? {
      assert e == ACCEPTED[0] || e == ACCEPTED[1] || e == ACCEPTED[2] || e == ACCEPTED[3];
    }
    return Err(InvalidPageToken);
  }

  /** The bytes of a token under whichever encoding accepts it. */
  function Tolerant(token: string): Option<Bytes> {
    if Decode(RAW_URL, token).Some? then Decode(RAW_URL, token)
    else if Decode(STD, token).Some? then Decode(STD, token)
    else if Decode(URL, token).Some? then Decode(URL, token)
    else Decode(RAW_STD, token)
  }

  /** Trial order does not matter, and tokens of all four encodings, old and new, still decode. */
  lemma TolerantIs(token: string, e: Encoding, bytes: Bytes)
    ensures Decode(e, token).Some? ==> Tolerant(token) == Decode(e, token)
    ensures Tolerant(Encode(e, bytes)) == Some(bytes)
  {
    if Decode(e, token).Some? {
      assert e == RAW_URL || e == STD || e == URL || e == RAW_STD;
      TolerantAgrees(token, e);
    }
    RoundTrip(e, bytes);
    TolerantAgrees(Encode(e, bytes), e);
  }

  lemma TolerantAgrees(token: string, e: Encoding)
    requires Decode(e, token).Some?
    ensures Tolerant(token) == Decode(e, token)
  {
    assert e == RAW_URL || e == STD || e == URL || e == RAW_STD;
    if Decode(RAW_URL, token).Some? { DecodersAgree(RAW_URL, e, token); }
    if Decode(STD, token).Some? { DecodersAgree(STD, e, token); }
    if Decode(URL, token).Some? { DecodersAgree(URL, e, token); }
  }

  // ------------------------------------------------------------------ single-column cursors

  function EncodeCursor(id: Bytes): string {
    if id == [] then "" else Encode(RAW_URL, id)
  }

  function DecodeCursor(token: string): Result<Bytes, TokenError> {
    if token == "" then Ok([])
    else match Tolerant(token)
      case Some(raw) => Ok(raw)
      case None => Err(InvalidPageToken)
  }

  /** Tokens round-trip, are empty only for the empty id, and are safe in a URL query. */
  lemma CursorRoundTrip(id: Bytes)
    ensures DecodeCursor(EncodeCursor(id)) == Ok(id)
    ensures EncodeCursor(id) == "" <==> id == []
    ensures AllIn(true, EncodeCursor(id))
  {
    if id != [] {
      EncodedChars(RAW_URL, id);
      RoundTrip(RAW_URL, id);
    }
  }

  // ------------------------------------------------------------------ composite cursors

  function Join(parts: seq<Bytes>): Bytes {
    if |parts| == 0 then [] else if |parts| == 1 then parts[0] else parts[0] + [SEP] + Join(parts[1..])
  }

  function Split(s: Bytes): seq<Bytes> {
    Text.Split(s, SEP)
  }

  function EncodeTuple(parts: seq<Bytes>): string {
    if parts == [] then "" else Encode(RAW_URL, Join(parts))
  }

  /** Parts are joined by the unit separator, byte 0x1f. */
  lemma TwoParts(a: Bytes, b: Bytes)
    ensures EncodeTuple([]) == "" && Join([a, b]) == a + [0x1f] + b
  {
    assert [a, b][1..] == [b];
  }

  function DecodeTuple(token: string, n: int): Result<seq<Bytes>, TokenError> {
    if token == "" then Ok([])
    else match Tolerant(token)
      case None => Err(InvalidPageToken)
      case Some(raw) =>
        var parts := Split(raw);
        if |parts| != n then Err(InvalidPageToken)
        else if [] in parts then Err(InvalidPageToken)
        else Ok(parts)
  }

  /** No token is the first page, whatever the arity; and a token that no encoding accepts is refused. */
  lemma FirstPage(token: string, n: int)
    ensures DecodeCursor("") == Ok([]) && DecodeTuple("", n) == Ok([])
    ensures token != "" && (forall e :: Decode(e, token).None?) ==>
      DecodeCursor(token) == Err(InvalidPageToken) && DecodeTuple(token, n) == Err(InvalidPageToken)
  {
  }

  predicate Clean(part: Bytes) {
    SEP !in part
  }

  ghost predicate Proper(parts: seq<Bytes>) {
    forall p | p in parts :: p != [] && Clean(p)
  }

  function Seps(s: Bytes): nat {
    if s == [] then 0 else (if s[0] == SEP then 1 else 0) + Seps(s[1..])
  }

  lemma {:induction false} SplitCounts(s: Bytes)
    ensures |Split(s)| == Seps(s) + 1
  {
    if s != [] { SplitCounts(s[1..]); }
  }

  lemma {:induction false} SepsAppend(a: Bytes, b: Bytes)
    ensures Seps(a + b) == Seps(a) + Seps(b)
  {
    if a == [] {
      assert a + b == b;
    } else {
      assert (a + b)[1..] == a[1..] + b;
      SepsAppend(a[1..], b);
    }
  }

  lemma {:induction false} CleanIffNoSeps(p: Bytes)
    ensures Clean(p) <==> Seps(p) == 0
  {
    if p != [] {
      CleanIffNoSeps(p[1..]);
      assert p == [p[0]] + p[1..];
    }
  }

  lemma {:induction false} JoinCounts(parts: seq<Bytes>)
    requires parts != []
    ensures Seps(Join(parts)) >= |parts| - 1
    ensures Seps(Join(parts)) == |parts| - 1 <==> forall p | p in parts :: Clean(p)
  {
    CleanIffNoSeps(parts[0]);
    assert parts == [parts[0]] + parts[1..];
    if |parts| > 1 {
      JoinCounts(parts[1..]);
      SepsAppend(parts[0] + [SEP], Join(parts[1..]));
      SepsAppend(parts[0], [SEP]);
      assert Seps([SEP]) == 1;
    }
  }

  lemma {:induction false} SplitInvertsJoin(parts: seq<Bytes>)
    requires parts != [] && forall p | p in parts :: Clean(p)
    ensures Split(Join(parts)) == parts
  {
    assert parts == [parts[0]] + parts[1..];
    assert parts[0] in parts && SEP !in parts[0];
    if |parts| == 1 {
      Text.SplitAtFirst(parts[0], SEP, []);
    } else {
      SplitInvertsJoin(parts[1..]);
      Text.SplitAtFirst(parts[0], SEP, Join(parts[1..]));
    }
  }

  /** A tuple of non-empty, separator-free parts decodes at its own arity and at no other. */
  lemma TupleRoundTrip(parts: seq<Bytes>, n: int)
    requires parts != [] && Proper(parts)
    ensures DecodeTuple(EncodeTuple(parts), n) == if n == |parts| then Ok(parts) else Err(InvalidPageToken)
  {
    SplitInvertsJoin(parts);
    assert Join(parts) != [] by {
      assert parts[0] in parts;
    }
    EncodedChars(RAW_URL, Join(parts));
    TolerantIs("", RAW_URL, Join(parts));
  }

  /** Decoding gives back what was encoded exactly for such tuples: an empty part or a separator inside one loses it. */
  lemma TupleRoundTripIff(parts: seq<Bytes>)
    requires parts != []
    ensures DecodeTuple(EncodeTuple(parts), |parts|) == Ok(parts) <==> Proper(parts)
  {
    TolerantIs("", RAW_URL, Join(parts));
    SplitCounts(Join(parts));
    JoinCounts(parts);
    if Proper(parts) {
      TupleRoundTrip(parts, |parts|);
    } else if forall p | p in parts :: Clean(p) {
      SplitInvertsJoin(parts);
    }
  }

  // ------------------------------------------------------------------ page sizes

  datatype PageSize = PageSize(default: int, max: int) {
    function Resolve(requested: int): int {
      if requested <= 0 then default
      else if max > 0 && requested > max then max
      else requested
    }
  }

  /** No preference gets the default, too much the ceiling if there is one, and anything else what it asks for. */
  lemma ResolveIs(default: int, max: int, requested: int)
    ensures var size := PageSize(default, max).Resolve(requested);
      && (requested <= 0 ==> size == default)
      && (requested > 0 && max > 0 && requested > max ==> size == max)
      && (requested > 0 && (max <= 0 || requested <= max) ==> size == requested)
  {
  }

  /** For a sane policy the page is never empty and never above the ceiling, and an allowed request is honoured. */
  lemma ResolveClamps(p: PageSize, requested: int)
    requires 1 <= p.default && (p.max > 0 ==> p.default <= p.max)
    ensures 1 <= p.Resolve(requested) && (p.max > 0 ==> p.Resolve(requested) <= p.max)
    ensures p.Resolve(requested) == requested <==>
      (1 <= requested && (p.max > 0 ==> requested <= p.max))
  {
  }

  // ------------------------------------------------------------------ walking the pages

  /** The keyset order: byte by byte. The empty cursor precedes every id. */
  predicate Less(a: Bytes, b: Bytes) {
    b != [] && (a == [] || a[0] < b[0] || (a[0] == b[0] && Less(a[1..], b[1..])))
  }

  /** The ids agree up to k, where the first ends or has the smaller byte. */
  predicate DiffersAt(a: Bytes, b: Bytes, k: nat) {
    && k <= |a| && k < |b| && a[..k] == b[..k]
    && (k < |a| ==> a[k] < b[k])
  }

  lemma {:induction false} LessIff(a: Bytes, b: Bytes)
    ensures Less(a, b) <==> exists k: nat :: DiffersAt(a, b, k)
  {
    if b != [] && (a == [] || a[0] < b[0]) {
      assert DiffersAt(a, b, 0);
    } else if b != [] && a[0] == b[0] {
      LessIff(a[1..], b[1..]);
      assert a == [a[0]] + a[1..] && b == [b[0]] + b[1..];
      if k: nat :| DiffersAt(a[1..], b[1..], k) {
        assert a[..k + 1] == [a[0]] + a[1..][..k] && b[..k + 1] == [b[0]] + b[1..][..k];
        assert DiffersAt(a, b, k + 1);
      }
      if k: nat :| DiffersAt(a, b, k) {
        assert k > 0 && a[..k][1..] == a[1..][..k - 1] && b[..k][1..] == b[1..][..k - 1];
        assert DiffersAt(a[1..], b[1..], k - 1);
      }
    }
  }

  ghost predicate Ascending(ids: seq<Bytes>) {
    forall i, j | 0 <= i < j < |ids| :: Less(ids[i], ids[j])
  }

  /** WHERE id > cursor ORDER BY id. */
  function After(ids: seq<Bytes>, cursor: Bytes): seq<Bytes> {
    if ids == [] then [] else
      (if Less(cursor, ids[0]) then [ids[0]] else []) + After(ids[1..], cursor)
  }

  function Fetch(ids: seq<Bytes>, cursor: Bytes, limit: nat): seq<Bytes> {
    var rows := After(ids, cursor);
    if |rows| <= limit then rows else rows[..limit]
  }

  /** The overfetch sentinel: one row too many means another page, keyed by the last row kept. */
  function TrimOverfetch(rows: seq<Bytes>, limit: nat): (seq<Bytes>, Bytes)
    requires limit >= 1
  {
    if |rows| <= limit then (rows, []) else (rows[..limit], rows[limit - 1])
  }

  lemma {:induction false} LessAsymmetric(a: Bytes, b: Bytes)
    requires Less(a, b)
    ensures !Less(b, a)
  {
    if a != [] && a[0] == b[0] { LessAsymmetric(a[1..], b[1..]); }
  }

  lemma {:induction false} LessIrreflexive(a: Bytes)
    ensures !Less(a, a)
  {
    if a != [] { LessIrreflexive(a[1..]); }
  }

  /** Past its k-th id, an ascending list continues with the rest of itself. */
  lemma {:induction false} AfterIsSuffix(ids: seq<Bytes>, k: nat)
    requires Ascending(ids) && k < |ids|
    ensures After(ids, ids[k]) == ids[k + 1..]
    decreases |ids|
  {
    if k == 0 {
      LessIrreflexive(ids[0]);
      AfterAll(ids[1..], ids[0]);
    } else {
      assert Less(ids[0], ids[k]);
      LessAsymmetric(ids[0], ids[k]);
      AfterIsSuffix(ids[1..], k - 1);
    }
  }

  lemma {:induction false} AfterAll(ids: seq<Bytes>, cursor: Bytes)
    requires forall i | 0 <= i < |ids| :: Less(cursor, ids[i])
    ensures After(ids, cursor) == ids
  {
    if ids != [] {
      AfterAll(ids[1..], cursor);
      assert ids == [ids[0]] + ids[1..];
    }
  }

  function Concat(pages: seq<seq<Bytes>>): seq<Bytes> {
    if pages == [] then [] else pages[0] + Concat(pages[1..])
  }

  lemma {:induction false} ConcatSnoc(pages: seq<seq<Bytes>>, page: seq<Bytes>)
    ensures Concat(pages + [page]) == Concat(pages) + page
  {
    if pages == [] {
      assert pages + [page] == [page];
      assert Concat([page]) == page + Concat([]);
    } else {
      assert (pages + [page])[1..] == pages[1..] + [page];
      ConcatSnoc(pages[1..], page);
    }
  }

  /** The rows of one request, and the id its next token stands for: empty when there is none. */
  function PageOf(ids: seq<Bytes>, cursor: Bytes, limit: nat): (seq<Bytes>, Bytes)
    requires limit >= 1
  {
    TrimOverfetch(Fetch(ids, cursor, limit + 1), limit)
  }

  /** One request: decode the token, overfetch by one, trim, encode the next token. */
  method ServePage(ids: seq<Bytes>, token: string, limit: nat, ghost cursor: Bytes)
    returns (page: seq<Bytes>, next: string)
    requires limit >= 1 && DecodeCursor(token) == Ok(cursor)
    ensures page == PageOf(ids, cursor, limit).0
    ensures DecodeCursor(next) == Ok(PageOf(ids, cursor, limit).1)
    ensures next == "" <==> PageOf(ids, cursor, limit).1 == []
  {
    var rows := Fetch(ids, DecodeCursor(token).value, limit + 1);
    var (p, last) := TrimOverfetch(rows, limit);
    CursorRoundTrip(last);
    return p, EncodeCursor(last);
  }

  /** Where a walk stands: `k` ids seen, and the cursor names the last of them. */
  ghost predicate Standing(ids: seq<Bytes>, k: nat, cursor: Bytes) {
    k <= |ids| && After(ids, cursor) == ids[k..]
  }

  lemma PageAt(ids: seq<Bytes>, k: nat, cursor: Bytes, limit: nat)
    requires limit >= 1 && Standing(ids, k, cursor)
    ensures var (page, last) := PageOf(ids, cursor, limit);
      && |page| == (if |ids| - k <= limit then |ids| - k else limit)
      && ids[..k] + page == ids[..k + |page|]
      && last == if |ids| - k <= limit then [] else ids[k + limit - 1]
  {
  }

  lemma StandNext(ids: seq<Bytes>, k: nat)
    requires Ascending(ids) && 0 < k <= |ids|
    ensures Standing(ids, k, ids[k - 1])
  {
    AfterIsSuffix(ids, k - 1);
  }

  lemma PageLeaves(ids: seq<Bytes>, k: nat, cursor: Bytes, limit: nat, page: seq<Bytes>, last: Bytes)
    requires limit >= 1 && Ascending(ids) && forall i | 0 <= i < |ids| :: ids[i] != []
    requires Standing(ids, k, cursor) && (page, last) == PageOf(ids, cursor, limit)
    ensures k + |page| <= |ids| && ids[..k] + page == ids[..k + |page|]
    ensures |page| == if |ids| - k <= limit then |ids| - k else limit
    ensures last == [] <==> |ids| - k <= limit
    ensures last != [] ==> Standing(ids, k + limit, last)
  {
    PageAt(ids, k, cursor, limit);
    if |ids| - k > limit {
      StandNext(ids, k + limit);
    }
  }

  /** A request made where the walk stands serves the next rows and leaves the walk standing after them. */
  method TurnPage(ids: seq<Bytes>, token: string, limit: nat, ghost k: nat, ghost cursor: Bytes)
    returns (page: seq<Bytes>, next: string, ghost cursor': Bytes)
    requires limit >= 1 && Ascending(ids) && forall i | 0 <= i < |ids| :: ids[i] != []
    requires Standing(ids, k, cursor) && DecodeCursor(token) == Ok(cursor)
    ensures k + |page| <= |ids| && ids[..k] + page == ids[..k + |page|]
    ensures |page| == if |ids| - k <= limit then |ids| - k else limit
    ensures next == "" <==> |ids| - k <= limit
    ensures next != "" ==> Standing(ids, k + limit, cursor')
    ensures DecodeCursor(next) == Ok(cursor')
  {
    page, next := ServePage(ids, token, limit, cursor);
    cursor' := PageOf(ids, cursor, limit).1;
    PageLeaves(ids, k, cursor, limit, page, cursor');
  }

  lemma StandAtStart(ids: seq<Bytes>)
    requires forall i | 0 <= i < |ids| :: ids[i] != []
    ensures Standing(ids, 0, []) && DecodeCursor("") == Ok([])
  {
    AfterAll(ids, []);
  }

  ghost predicate AllFull(pages: seq<seq<Bytes>>, limit: nat) {
    forall i | 0 <= i < |pages| :: |pages[i]| == limit
  }

  lemma OnePageMore(ids: seq<Bytes>, pages: seq<seq<Bytes>>, page: seq<Bytes>, k: nat, limit: nat)
    requires k + |page| <= |ids| && ids[..k] + page == ids[..k + |page|]
    requires Concat(pages) == ids[..k] && AllFull(pages, limit)
    ensures Concat(pages + [page]) == ids[..k + |page|]
    ensures |page| == limit ==> AllFull(pages + [page], limit)
  {
    ConcatSnoc(pages, page);
  }

  /**
   Following next tokens until there is none terminates and yields the whole list: no gap, no repeat,
   every page but the last full.
   */
  method WalkPages(ids: seq<Bytes>, limit: nat) returns (pages: seq<seq<Bytes>>)
    requires limit >= 1 && Ascending(ids) && forall i | 0 <= i < |ids| :: ids[i] != []
    ensures Concat(pages) == ids
    ensures |pages| >= 1 && |pages[|pages| - 1]| <= limit
    ensures forall i | 0 <= i < |pages| - 1 :: |pages[i]| == limit
  {
    var token := "";
    ghost var k, cursor: Bytes := 0, [];
    pages := [];
    StandAtStart(ids);
    assert Concat([]) == [] == ids[..0];
    while true
      invariant Standing(ids, k, cursor) && DecodeCursor(token) == Ok(cursor)
      invariant Concat(pages) == ids[..k]
      invariant AllFull(pages, limit)
      decreases |ids| - k
    {
      var page, next, cursor' := TurnPage(ids, token, limit, k, cursor);
      OnePageMore(ids, pages, page, k, limit);
      pages := pages + [page];
      if next == "" {
        return;
      }
      token, cursor := next, cursor';
      k := k + limit;
    }
  }
}
