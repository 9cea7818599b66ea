# Verified model of oikumenea's algorithmic cores

A Dafny 4.11 model of five parts of oikumenea, a personnel and organisation registry written in Go, with
proofs of what those parts promise. `dafny verify dfyconfig.toml` checks all of it.

| part | modules |
|---|---|
| Envelope encryption and key rotation | `Envelope`, `Rotation`, `RotationStops`, `RotationLaws`, `RotationRuns`, `Erasures`, `ReindexRaces` |
| Dashboard aggregation and the facet vocabulary | `Facets`, `Refusals`, `Selection`, `Stats`, `Ranking`, `Assembly`, `Conservation`, `ChartOrder`, `Labels`, `Dashboard`, `ManyValued`, `Subtrees` |
| Preset ordering and boot seeding | `Presets`, `Seeding`, `SeedContents` |
| Check digits | `CheckDigits`, `Luhn`, `Iban`, `IbanSwaps`, `Formulas` |
| Page tokens, paging and registry tokens | `Base64`, `Listing`, `TypeTokens` |
| Shared | `Wrappers`, `Octets`, `Ordering`, `Sums`, `Text` |

Code that changes state is a class or a method with loops, proved against a specification function or
relation; the theorems are lemmas about those specifications.

## What is assumed

- AES-GCM is ideal (sections 7.1 and 7.2 of NIST SP 800-38D): a sealed blob opens under the key that
  sealed it and under no other. Nonces, data keys, clock readings, SHA-256 (the key fingerprint) and
  HMAC-SHA256 are parameters.
- `keyRefFor` keeps four bytes of a hash, so what draining proves assumes fingerprints distinct on the keys
  in play, and that a row's key_ref, when present, names the key that wrapped it.
  `RotationRuns.CollisionEscapesDrain` shows what a collision costs.
- One rewrap process at a time, and a batch in flight keeps the keys that process started with; application
  writes seal under the active key. Each batch commits or aborts as a whole. A reindex runs under one set of
  keys, and applications index what they save under the same blind-index key.
- A SQL query is a function of an abstract table: a map from id to row for rotation; for the dashboard one
  column of optional text per facet, or per visible row the list of what it joins to. `sort.Slice` returns
  some sorted permutation, `sort.SliceStable` the stable one.
- The database may refuse the UPDATE of any set of rows, and a rotation may be stopped between any two
  batches, by a kill or by a query that fails.
- One seeder at a time. A crash may fall between any two of its durable actions.
- Text is ASCII. Counts and sums are unbounded integers, except where the code parses an int64.

## What came out

- **A rewrap commit matches rows by id alone.** Along any run whatever, every row not erased stays readable
  exactly when each commit that goes through finds its batch current (each readable row still has the data
  key the batch read) and keys are dropped only when every such row is under the active one
  (`RotationRuns.RunSafeIff`). A value rewritten under a new data key between the read and the commit is
  lost (`StoreRacesCommit`); no writer can see that a batch has read its row.
- **A crypto-erased row can get its wrapped data key back**, though not its value (`EraseRacesCommit`). A run
  leaves it destroyed exactly when no batch that had read it is written (`Erasures.StaysGoneIff`), and an
  erasure holds whatever follows exactly when no batch in flight that can go through has read the row
  (`Erasures.ErasureHoldsIff`).
- **A reindex commit matches by id alone too.** A value saved in between is left under the index of the one
  before (`ReindexRaces.SaveRacesWrite`). Through any passes, interrupted and restarted, what has been
  visited is indexed by its own value exactly when each commit finds its batch current (`PassIndexesIff`).
- **A row whose catalog entry has been deleted is in no bucket.** The only catalog facet, degreeLevelId of an
  enrollment, counts live levels and NULLs, so its buckets fall short of the total by the rows whose level is
  soft-deleted (`Dashboard.CatalogShortfall`, `DeletedLevelIsLost`), against `pkg/stats/stats.go:22-25`.
- **"A bucket's count equals the number of rows the list returns under that bucket's own filter"**
  (`pkg/facet/facet.go:201`) **fails for person.unitId.** The filter expands a unit to its subtree and the
  bucket does not (`ManyValued.SubtreeFilterFindsMore`); and a person with two posts in one unit, which the
  schema allows, is one row and counts twice (`TwoPostsCountTwice`). The exact conditions are
  `BucketIsFilterIff` and `ExactFilterIff`. The religion tree's closure facet does keep the promise, at any
  drill-down depth (`Subtrees.SubtreeBucketIsItsFilter`), and only because of its second join
  (`UnconfinedIff`).
- **person.rankId and person.unitId need not sum to the total**, although neither is declared
  non-partitioning: they exceed it as soon as one person holds two values (`ManyValued.OuterSumIff`). Nor is a
  non-partitioning facet's sum always at least the total, as `pkg/facet/facet.go:200` has it: the subtree
  facet's inner join drops the roots (`RootsAreDropped`; exactly when, `InnerSumIff`).
- **A row whose id is the nil UUID is never reindexed**, because the cursor starts there
  (`RotationLaws.NilIdIsSkipped`).
- **"Every counted row lands in exactly one bucket" has two side conditions.** `Conservation.ConservesIff`
  gives them: no rows under an enum value declared twice, and none under a bool key other than `true` and
  `false`. Registration rejects neither duplicate values (`RepeatedValueOvercounts`) nor overlapping bands
  (`Dashboard.OverlapIsAccepted`; `Dashboard.BandIsItsFilterIff` says when that matters).
- **An identity chart depends on row order** exactly when two or more undeclared values occur
  (`ChartOrder.IdentityOrderMattersIff`).
- **RNOKPP rejects every prefix whose weighted sum is negative**, since Go's remainder keeps the sign.
- **Registry tokens are collision-free**, as `pkg/rid/registry.go:285` promises for the whole registry,
  exactly when each namespaced slug misses every bare and every other namespaced one
  (`TypeTokens.TokensUniqueIff`); `TypeTokens.TokensCanCollide` is a registry where they are not.
- **A composite page token loses its tuple** exactly when a part is empty or contains the separator
  (`Listing.TupleRoundTripIff`).

## Model

| member | source | states |
|---|---|---|
| Envelope.NewProvider | pkg/crypto/localdev.go:45-58 | a provider is built exactly when every key has 32 bytes; the error names the first that does not |
| Envelope.Unwrap | pkg/crypto/localdev.go:86-99 | the active-then-previous search finds the data key exactly when some held key wrapped it |
| Envelope.AesSizes | pkg/crypto/crypto.go:155-187 | sealing and opening work under keys of 16, 24 or 32 bytes and no others |
| Envelope.SealedOpensIff | pkg/crypto/crypto.go:88-122 | a sealed value opens to its plaintext under exactly the providers holding the sealing key |
| Envelope.RewrapMoves | pkg/crypto/crypto.go:133-143 | a rewrapped value opens to the same plaintext under exactly the providers holding the active key |
| Envelope.CacheIsLatestPut | pkg/crypto/crypto.go:206-233 | over any history, a lookup hits exactly when the latest put of that key is no older than the TTL, and returns it |
| Envelope.CacheTransparent | pkg/crypto/crypto.go:88-122 | any sequence of seals and opens, with any clock readings and expiries, answers as a cipher with no cache does |
| Envelope.OverlapTransparent | pkg/crypto/crypto.go:54-58 | calls may overlap, others coming between an open's lookup and its fill: each seal answers what it would alone, each open what unwrapping its own arguments gives |
| Envelope.MissWaits | pkg/crypto/crypto.go:107-116 | an open that missed keeps its arguments, whatever other calls do, until it fills |
| Envelope.LookupFillIsOpen | pkg/crypto/crypto.go:107-122 | with nothing in between, a lookup and its fill are one call of Open |
| Envelope.ExecCoherent | pkg/crypto/crypto.go:107-122 | every cache entry stays equal to what unwrapping gives, and so Open equals an uncached open |
| Envelope.DekCache.Put | pkg/crypto/crypto.go:206-215 | the entry and its expiry; nothing when the TTL is not positive |
| Envelope.DekCache.Get | pkg/crypto/crypto.go:217-233 | a fresh entry, or a miss that evicts an expired one |
| Envelope.NewCipher | pkg/crypto/crypto.go:73-83 | a missing provider and an empty blind-index key are refused, each with its own error; otherwise the cipher has the provider, the key and the TTL given, indexes by the MAC given under that key, and starts with an empty cache |
| Envelope.Cipher.Seal | pkg/crypto/crypto.go:88-103 | the envelope opens to the plaintext, and the cache state is that of the run model |
| Envelope.Cipher.Open | pkg/crypto/crypto.go:107-122 | the answer is the uncached one, and the cache state is that of the run model |
| Envelope.Cipher.Rewrap | pkg/crypto/crypto.go:133-143 | fails exactly when no held key unwraps; otherwise wraps under the active key and reports its reference |
| Rotation.EncTable.RewrapBatch | cmd/oikumenea/rewrap.go:202-213 | one transaction: all its rows rewrapped, or none and the first row that does not unwrap or whose UPDATE is refused |
| Rotation.EncTable.RewrapTable | cmd/oikumenea/rewrap.go:171-219 | killed anywhere, failed or finished, the rewrapped rows are a prefix of the initially stale ones in id order, counted exactly |
| Rotation.EncTable.ReindexBatch | cmd/oikumenea/rewrap.go:262-273 | one transaction: all its rows reindexed, or none and the first row that does not open or whose UPDATE is refused |
| Rotation.EncTable.ReindexTable | cmd/oikumenea/rewrap.go:224-279 | killed anywhere, failed or finished, the rows visited are a prefix of the eligible ones in id order, each once |
| Rotation.StillStale | cmd/oikumenea/rewrap.go:172-173 | after k rows the query selects exactly the rest of the original list: the loop drains |
| Rotation.StillAhead | cmd/oikumenea/rewrap.go:225-226 | past the cursor lie exactly the eligible rows not yet visited |
| Rotation.TakenIsMin | cmd/oikumenea/rewrap.go:176-218 | n committed batches have taken min(n times batch, stale rows) |
| RotationLaws.RunRewrap | cmd/oikumenea/rewrap.go:68-219 | for any batch flag one table's pass ends by itself; normally exactly when every stale row can be unwrapped and written, then having rewritten exactly the stale rows and left none; failing, it names the first bad row in id order and has done exactly the rows of the full batches before it; no secret changes |
| RotationLaws.RewrapAll | cmd/oikumenea/rewrap.go:112-121 | all tables in turn: the completed ones drained, stopping at the first that cannot be, in it only the full batches before its first bad row done, the rest untouched; no secret changes; no failure exactly when all can be drained |
| RotationLaws.RunReindex | cmd/oikumenea/rewrap.go:68-279 | for any batch flag one table's pass ends by itself; normally exactly when every eligible row can be opened and written, each then indexed by its own plaintext; failing, it names the first bad row in id order and has done exactly the rows of the full batches before it; nothing else changes |
| RotationLaws.ReindexAll | cmd/oikumenea/rewrap.go:124-134 | all tables in turn: the completed ones indexed, stopping at the first that cannot be, in it only the full batches before its first bad row done, the rest untouched; only indexes change; no failure exactly when all can be indexed |
| RotationStops.StopsAtBatch | cmd/oikumenea/rewrap.go:202-217 | a pass that fails in its n-th batch has its whole batches done and names the least id that cannot be |
| RotationLaws.RewrapKeepsSecrets | cmd/oikumenea/rewrap.go:46-54 | however far a run got, ciphertexts, blind indexes and plaintexts are unchanged and rows reached open under the active key alone |
| RotationLaws.RewrapDoneIff | cmd/oikumenea/rewrap.go:171-219 | a run ends normally exactly when every stale row can be unwrapped and written, with total the initial stale count |
| RotationLaws.RewrapAgainIsNothing | cmd/oikumenea/rewrap.go:168-170 | a run after a completed one rewrites nothing |
| RotationLaws.KilledRunsConverge | cmd/oikumenea/rewrap.go:49-53 | any sequence of killed runs and a completing one moves exactly the initially stale rows, each with its own data key |
| RotationLaws.ReindexOnlyIndexes | cmd/oikumenea/rewrap.go:262-273 | however far a reindex got, only blind indexes changed, and those reached index their plaintext |
| RotationLaws.ReindexDoneIff | cmd/oikumenea/rewrap.go:224-279 | a reindex ends normally exactly when every eligible row can be opened and written, leaving all of them correctly indexed |
| RotationLaws.ReindexIdempotent | cmd/oikumenea/rewrap.go:221-223 | finishing from wherever an interrupted reindex stopped gives the table of one uninterrupted reindex |
| RotationLaws.NilIdIsSkipped | cmd/oikumenea/rewrap.go:229 | the row with the nil id is the only one with both columns that is never visited |
| RotationRuns.RunSafeIff | cmd/oikumenea/rewrap.go:176-217 | along any run of writes, erasures, deletions, fetched, committed and aborted batches, promotions and retirements: every row not erased opens at every point to what was last stored exactly when each commit that goes through finds its batch current and each retirement finds such rows under the active key |
| RotationRuns.StepSafeIff | cmd/oikumenea/rewrap.go:176-217 | from any sound state, one step leaves every row readable exactly when it is harmless in that sense, and the state is then sound again |
| RotationRuns.RotationIsSafe | cmd/oikumenea/rewrap.go:112-121 | a discipline that suffices: no rewriting of a row in flight, and keys dropped between batches once every table has drained |
| RotationRuns.StepKeeps | cmd/oikumenea/rewrap.go:176-217 | under that discipline every step is harmless and keeps the invariant |
| RotationRuns.EmptyTablesAreSafe | pkg/crypto/localdev.go:45-58 | a new installation satisfies the invariant |
| RotationRuns.FetchCommitIsBatch | cmd/oikumenea/rewrap.go:176-213 | with nothing in between, a fetch and its commit are the tool's transaction over that batch |
| RotationRuns.DrainedUnderActive | cmd/oikumenea/rewrap.go:199-201 | once a table has drained every data key in it is wrapped under the active key, given distinct fingerprints |
| RotationRuns.DrainedThenActiveSuffices | cmd/oikumenea/rewrap.go:112-121 | after any run of harmless steps that ends with every table drained, a provider with the active key alone opens every row |
| Erasures.ErasedStaysErased | cmd/oikumenea/rewrap.go:172-174 | an erased row stays unreadable to every provider until something new is stored in it |
| RotationRuns.CommitSafeIff | cmd/oikumenea/rewrap.go:174 | a commit keeps all rows readable exactly when it rolls back or each readable row of the batch still has the data key the batch read |
| RotationRuns.StoreRacesCommit | cmd/oikumenea/rewrap.go:174 | a row rewritten under another data key while its batch is in flight is unreadable after the commit, and reads as written if the batch rolls back |
| RotationRuns.EraseRacesCommit | cmd/oikumenea/rewrap.go:174 | a row erased while its batch is in flight gets a wrapped data key and key_ref back exactly when the batch goes through, but no ciphertext |
| Erasures.CommitRestoresIff | cmd/oikumenea/rewrap.go:174 | a row without a wrapped data key still has none after a commit exactly when the batch had not read it or rolls back |
| Erasures.StaysGoneIff | pkg/crypto/crypto.go:50-52 | over any run without a new value or a deletion, a destroyed wrapped data key stays destroyed throughout exactly when no batch that had read the row is written |
| Erasures.ErasureHoldsIff | pkg/crypto/crypto.go:50-52 | it stays destroyed whatever happens next exactly when no batch in flight that can go through has read the row |
| RotationRuns.RetireSafeIff | pkg/crypto/localdev.go:86-99 | dropping the previous keys keeps all rows readable exactly when each is wrapped under the active key |
| RotationRuns.CollisionEscapesDrain | pkg/crypto/localdev.go:66-72 | a row under a key with the active key's fingerprint is never selected for rewrapping and is lost on retirement |
| ReindexRaces.ReadCommitIsBatch | cmd/oikumenea/rewrap.go:224-273 | with nothing in between, a reindex batch's read and its commit are the tool's one transaction |
| ReindexRaces.ReindexCommitIff | cmd/oikumenea/rewrap.go:227 | whatever was written in between, every readable row ends up indexed by its own value exactly when each one in the batch has a value of the index read and each other one was well indexed |
| ReindexRaces.ErasedIndexIff | cmd/oikumenea/rewrap.go:227 | a row without a blind index still has none after the commit exactly when the batch had not read it; otherwise it has that of the value read |
| ReindexRaces.PassIndexesIff | cmd/oikumenea/rewrap.go:224-279 | through reindex passes interrupted and restarted among saves, erasures and deletions, every readable row visited is indexed by its own value at every point exactly when each commit finds its batch current |
| ReindexRaces.FinishedPassIndexes | cmd/oikumenea/rewrap.go:224-279 | if every commit does, a finished pass leaves every row but the nil one well indexed |
| ReindexRaces.SaveRacesWrite | cmd/oikumenea/rewrap.go:227 | a value saved while its row's batch is in flight is readable after the commit, under the index of the value before |
| Facets.Registry.Register | pkg/facet/facet.go:432-517 | a type enters exactly when well-formed, new and not exempt; a refusal changes nothing; the registry invariant is kept |
| Facets.CheckFacets | pkg/facet/facet.go:470-513 | the checks accept exactly the well-formed declarations: valid facets, no key or argument claimed twice, one top-N cutoff |
| Refusals.IllFormedIff | pkg/facet/facet.go:432-690 | a declaration is refused exactly when one of the listed errors applies to it: a header, facet, bucket or band fault, a key, argument or cutoff conflict, or a bad other argument |
| Facets.CheckTopN | pkg/facet/facet.go:487-503 | accepts exactly when all top-N facets share one cutoff |
| Facets.FilterReadCodes | pkg/facet/facet.go:731-743 | exactly the codes of the supplied gated facets, strictly increasing |
| Facets.KeysAreNotSynthetic | pkg/facet/facet.go:692-704 | no registered facet key can be taken for the total's pseudo-facet or a synthetic bucket |
| Selection.Select | pkg/stats/stats.go:145-191 | refused exactly when the list names a key nothing declares, the first such one being reported before any code is asked, or when a check fails, the first failing one being reported; otherwise the facets named, or all for a blank list, that the caller may read, each needed code asked exactly once |
| Selection.CsvNamesIff | pkg/stats/stats.go:154-163 | a key is named exactly when some stretch between commas is that key with blanks around it; everything is asked for exactly when the list is blank |
| Selection.ChosenMeans | pkg/stats/stats.go:168-189 | a facet is selected exactly when it is declared, the list names it or is blank, and its code is empty, unchecked or held |
| Selection.ChosenInOrder | pkg/stats/stats.go:168-189 | selected facets keep the order they are declared in |
| Selection.ChosenAsOften | pkg/stats/stats.go:168-189 | each as often as it is declared |
| Selection.ChosenDistinct | pkg/stats/stats.go:168-189 | no two facets selected from a registered type share a key |
| Selection.AsksMeans | pkg/stats/stats.go:173-187 | a code is asked about exactly when there is a check and a facet asked for needs that code |
| Selection.TopNOf | pkg/stats/stats.go:204-216 | under one shared cutoff, the value of every selected top-N facet, and zero when there is none |
| Selection.OneCutoffFitsAll | pkg/facet/facet.go:487-503 | every selection from a registered type shares one cutoff |
| Selection.ListAndDashboardAgree | pkg/facet/facet.go:731-743 | a filtered list's codes are all held exactly when a dashboard wanting those facets, named or by default, keeps every one; with or without a permission check |
| Stats.IndexGroups | pkg/stats/stats.go:553-570 | per-key sums, the NULL sum, and the keys in first-seen order |
| Stats.IdentityBuckets | pkg/stats/stats.go:402-418 | declared values in chart order, zero-filled, then undeclared ones as first seen, then NULLs |
| Stats.BoolBuckets | pkg/stats/stats.go:420-424 | the two buckets and the NULLs |
| Stats.ChronologicalBuckets | pkg/stats/stats.go:480-488 | the seen keys sorted, each with its sum, then the NULLs |
| Stats.FindBand | pkg/stats/stats.go:445-451 | the first declared band holding the number, if any |
| Text.ParseIff | pkg/stats/stats.go:440 | a number is one or more digits, with a sign or without, of a value that 64 bits hold |
| Text.TrimSpaceIs | pkg/stats/stats.go:440 | exactly the spaces at the two ends are taken off |
| Stats.BandBuckets | pkg/stats/stats.go:429-469 | each band with the rows whose first matching band it is, then the rest, then the NULLs |
| Ranking.TopNBuckets | pkg/stats/stats.go:498-551 | the real rows sorted by count or, when every one has it, by ordinal; then the tail; then the NULLs |
| Ranking.CatalogBuckets | pkg/stats/stats.go:356-396 | the rows sorted by ordinal with ordinal-less rows after them, ties as they arrived, then the NULLs; "(other)" is an ordinary key |
| Ranking.ComparatorsAreTotal | pkg/stats/stats.go:374-387 | on rows with distinct keys both comparators are strict total orders |
| Assembly.BucketsFor | pkg/stats/stats.go:325-342 | the outcome each strategy calls for |
| Assembly.Assemble | pkg/stats/stats.go:306-323 | the total from its own rows, and one distribution per selected facet, in order, from that facet's rows alone |
| Assembly.TotalRowsAre | pkg/stats/stats.go:310-316 | the rows of the pseudo-facet "(total)" make up the total and are no facet's |
| Assembly.FacetRowsAddNothing | pkg/stats/stats.go:309-315 | the total adds up over the rows, and a facet's own rows add nothing to it |
| Assembly.RowsOfInOrder | pkg/stats/stats.go:310-316 | a facet's rows are exactly those with its key, in the order they came |
| Conservation.ConservesIff | pkg/stats/stats.go:19-25 | for every strategy and any non-negative rows, buckets sum to the rows exactly when no twice-declared value and no other bool key counts anything |
| Conservation.IdentityConservesIff | pkg/stats/stats.go:402-418 | never less than the rows, and equal exactly when values declared more than once have none |
| Conservation.IdentityTotal | pkg/stats/stats.go:402-418 | the exact surplus a repeated declaration adds |
| Conservation.DistinctValuesConserve | pkg/stats/stats.go:402-418 | with distinct declared values the sum is always right |
| Conservation.RepeatedValueOvercounts | pkg/facet/facet.go:519-568 | a type Register accepts, with a facet of a repeated value whose buckets exceed its rows |
| Conservation.BoolConservesIff | pkg/stats/stats.go:420-424 | what is missing is exactly the other keys' count |
| Conservation.BandsConserve | pkg/stats/stats.go:429-469 | bands always sum to the rows |
| Conservation.ChronologicalConserves | pkg/stats/stats.go:480-488 | histograms always sum to the rows |
| Conservation.TopNConserves | pkg/stats/stats.go:498-551 | top-N charts always sum to the rows |
| Conservation.CatalogConserves | pkg/stats/stats.go:356-396 | catalog charts always sum to the rows |
| ChartOrder.CatalogFollowsScale | pkg/stats/stats.go:374-387 | a lower ordinal precedes a higher, any ordinal precedes none, keys break ties |
| ChartOrder.CatalogTiesAsArrived | pkg/stats/stats.go:374-387 | rows of one key and one ordinal keep the order they came in |
| ChartOrder.TopNFollowsRanking | pkg/stats/stats.go:521-539 | larger counts first, unless every listed row has an ordinal: then lower ordinals first; keys break ties |
| ChartOrder.IdentityFollowsDeclaration | pkg/stats/stats.go:402-418 | the declared values come first, as declared, each with its rows or zero; then every other value seen |
| ChartOrder.FirstSeenInOrder | pkg/stats/stats.go:412-416 | of two keys, the one an earlier row shows first is listed first |
| ChartOrder.FlatChartsFollow | pkg/stats/stats.go:420-451 | "true" before "false"; the bands as declared, by their keys |
| ChartOrder.SyntheticsLast | pkg/stats/stats.go:544-549 | nothing but "(unknown)" follows "(other)", and nothing follows "(unknown)" |
| ChartOrder.UnknownShownIff | pkg/stats/stats.go:572-580 | every chart ends with "(unknown)", holding all NULL rows, exactly when the facet declares it or NULLs were counted, and for bands and ranked charts even when a NULL group counts nothing |
| ChartOrder.ChronologicalAscends | pkg/stats/stats.go:471-488 | histogram keys ascend strictly before the unknown bucket |
| ChartOrder.TopNPermutes | pkg/stats/stats.go:498-551 | the chart is the same for every order of the input rows |
| ChartOrder.CatalogPermutes | pkg/stats/stats.go:356-396 | the chart is the same for every order of the input rows |
| ChartOrder.BandsPermute | pkg/stats/stats.go:429-469 | the chart is the same for every order of the input rows |
| ChartOrder.ChronologicalPermutes | pkg/stats/stats.go:480-488 | the chart is the same for every order of the input rows |
| ChartOrder.ArrivalOrderIrrelevant | pkg/stats/stats.go:325-342 | for every strategy, rows grouped by key give one chart in any order, except an identity chart with two undeclared values |
| ChartOrder.IdentityOrderMattersIff | pkg/stats/stats.go:412-416 | the chart is the same for every order of the input rows exactly when at most one undeclared value occurs |
| Labels.Response.RefIDs | pkg/stats/stats.go:220-239 | per token, the non-synthetic keys of its distributions in order; no token without ids |
| Labels.Response.ApplyLabels | pkg/stats/stats.go:244-264 | every bucket of a resolved ref takes its name; nothing else changes |
| Labels.LabelAll | pkg/stats/stats.go:51-74 | names every resolved id, or reports the first failing token in sorted order and touches nothing |
| Labels.AskedAboutIff | pkg/stats/stats.go:218-239 | the labeler is asked about exactly the ids the ref distributions show |
| Labels.AskedAboutRefs | pkg/stats/stats.go:220-239 | under each type, exactly the non-synthetic keys that a selected ref facet to that type shows |
| Labels.IdsInOrder | pkg/stats/stats.go:220-239 | ids come distribution by distribution, in the order its buckets have |
| Labels.NamedByKind | pkg/stats/stats.go:244-264 | a ref facet's bucket takes exactly the name given for its type and key; a distribution of any other kind comes back unchanged |
| Labels.NamingKeepsCounts | pkg/stats/stats.go:241-264 | labelling keeps every key, count and sum |
| Labels.Compute | pkg/stats/stats.go:277-301 | the unscoped arm is fetched exactly for an administrator; a caller without identity fetches nothing and gets an empty report; otherwise the labelled assembly or the first error |
| Labels.AnswerNames | pkg/stats/stats.go:277-301 | in the answer a ref bucket is named exactly as the labeler answered for its type when asked about the ids shown; no other bucket is named |
| Dashboard.GroupsCountRows | internal/person/adapters/queries/person.sql:199-204 | whatever is asked of the key, a GROUP BY's groups count the rows that satisfy it |
| Dashboard.KeptAreLargest | internal/person/adapters/queries/person.sql:218-227 | nothing folded into "(other)" is more frequent than anything shown, and of equals the lesser keys are shown |
| Dashboard.KeepsTheCutoff | internal/person/adapters/queries/person.sql:218-227 | exactly as many values are shown as the cutoff asks for, or all when there are fewer |
| Dashboard.BranchAddsUpIff | pkg/stats/stats.go:19-25 | over a branch's rows, buckets sum to the row count exactly when the column is faithful: no value declared twice, no other bool key, no entry the catalog does not list |
| Dashboard.CatalogShortfall | internal/education/adapters/queries/education.sql:643-653 | a catalog facet's buckets fall short of the rows by exactly those holding an entry not listed |
| Dashboard.DeletedLevelIsLost | internal/education/adapters/queries/education.sql:643-653 | one enrollment at a deleted level: the buckets sum to zero |
| Dashboard.DegreeLevelIsAccepted | pkg/facet/catalog.go:1718-1728 | that facet is one Register accepts |
| Dashboard.BucketCountsItsCells | internal/person/adapters/queries/person.sql:199-227 | through grouping, cutoff and chart building, every bucket counts exactly the cells it stands for: those with its key, the folded ones, or the NULLs; whatever values a window keeps or a catalog lists |
| Dashboard.BandIsItsFilterIff | pkg/stats/stats.go:446-451 | a band counts its own range exactly when no row of that range lies in an earlier band |
| Dashboard.OverlapIsAccepted | pkg/facet/facet.go:570-663 | a type Register accepts, with two bands that overlap, and a row its own band does not count |
| Dashboard.DisjointBandIsItsFilter | pkg/stats/stats.go:446-451 | with disjoint bands every band counts its own range |
| Dashboard.WithinInteger | internal/person/adapters/queries/person.sql:209-212 | an integer column shown as text falls in a band exactly when the integer does |
| Dashboard.AgeBandsPartition | pkg/facet/catalog.go:155-165 | the age bands are disjoint and only negative ages fall outside |
| Dashboard.LevelBandsPartition | pkg/facet/catalog.go:301-309 | the level bands are disjoint and only negative levels fall outside |
| Dashboard.DashboardAddsUp | pkg/stats/stats.go:306-323 | for any selection from a registered type, the total is the visible row count and each facet's buckets sum to the column it groups exactly when that is faithful to the declaration |
| ManyValued.CrossTableSum | internal/person/adapters/queries/person.sql:234-267 | a joined facet's buckets sum to the total plus what rows join to beyond the first, less the rows an inner join drops, exactly when its column is faithful |
| ManyValued.OuterSumIff | pkg/facet/facet.go:199-203 | under a LEFT JOIN the sum is at least the total, and equal exactly when no row joins twice |
| ManyValued.InnerSumIff | pkg/facet/facet.go:199-203 | under an inner join the sum is at least the total exactly when no more rows join to nothing than there are joins beyond the first |
| ManyValued.RootsAreDropped | internal/religion/adapters/stats.go:157-170 | one root alone: the total is one and the subtree facet sums to zero |
| ManyValued.EveryFacetSums | pkg/stats/stats.go:306-323 | for any selection from a registered type, facets joined from other tables included: the total is the visible row count, and each facet's buckets sum to it plus the joins beyond a row's first less the rows dropped, exactly when its column is faithful |
| ManyValued.BucketAgainstFilter | internal/person/adapters/queries/person.sql:77-95 | for any filter expansion, a bucket exceeds its filter by its key's repeats within rows and falls short by the rows the expansion alone reaches |
| ManyValued.BucketIsFilterIff | pkg/facet/facet.go:200-203 | where no row repeats a value, a bucket counts the rows holding its key, which is its filter's count exactly when every row the expansion reaches holds the key too |
| ManyValued.ExactFilterIff | pkg/facet/facet.go:200-203 | against a filter on the key alone, a bucket is never short, and equal exactly when no row holds the key twice |
| ManyValued.ClosureBucketIsItsFilter | pkg/facet/facet.go:190-196 | a facet that lists with each value all that expand to it agrees with its expanding filter |
| ManyValued.BothAreAccepted | pkg/facet/catalog.go:109-121 | the unitId and subtree facets used here are ones Register accepts |
| ManyValued.SubtreeFilterFindsMore | pkg/facet/catalog.go:109-121 | two people, one of them posted below the unit: the bucket counts one, the filter finds both |
| ManyValued.TwoPostsCountTwice | migrations/0003_person_membership.sql:364-370 | one person with two posts in a unit: the bucket counts two, the filter finds one |
| Subtrees.SubtreeBucketIsItsFilter | internal/religion/adapters/stats.go:157-170 | at the top or inside any view, a subtree bucket with rows lies in the view and counts exactly the nodes that anchoring at it lists |
| Subtrees.UnconfinedIff | internal/religion/adapters/stats.go:113-120 | without the second join it would agree exactly when nothing below its key lies outside the view |
| Presets.Loader.AddPreset | internal/pinax/preset.go:126-141 | a preset enters under its own name or not at all; incomplete and duplicate ones are told apart |
| Presets.Loader.LoadAll | internal/pinax/preset.go:57-84 | loading succeeds exactly when every file decodes and is complete and no name repeats |
| Presets.TopoSorter.VisitName | internal/pinax/preset.go:168-189 | one visit of the closure is one step of the depth-first search, colours and output included |
| Presets.TopoSort | internal/pinax/preset.go:153-196 | succeeds exactly when every dependency exists and none is circular, then listing each preset once after all it depends on; an error names a real cycle or missing name |
| Presets.LoadPresets | internal/pinax/preset.go:57-84 | files to ordered bundle: succeeds exactly when every file is complete under its own name, every dependency exists and none is circular; the error tells which half failed |
| Presets.VisitSound | internal/pinax/preset.go:168-189 | from any consistent search state a visit keeps it consistent and finishes its name, or reports a real cycle or missing name |
| Presets.TopoSound | internal/pinax/preset.go:151-196 | on success each preset once, after all it depends on; on failure the named preset lies on a cycle or names a missing one |
| Presets.TopoSucceedsIff | internal/pinax/preset.go:151-196 | success exactly when every dependency exists and there is no cycle |
| Presets.IterationOrderIrrelevant | internal/pinax/preset.go:154-158 | every order the map yields names in sorts to one list |
| Presets.ListedWhenNeeded | internal/pinax/preset.go:153-196 | no preset is listed earlier than needed: whatever stands before a name is needed by it or by a lesser one |
| Presets.KnownOrder | internal/pinax/preset.go:168-189 | dependencies are visited as declared: with a on d and c, and c on b, the order is d, b, c, a |
| Presets.SortingUnique | internal/pinax/preset.go:153-196 | the order or error is the same whatever order the map yields names in |
| Seeding.Seeder.ImportRecords | internal/dataimport/application/service.go:168-196 | absent rows are inserted; present ones overwritten only when reconciling and different; the counts are those of the records |
| SeedContents.FirstRecordWins | internal/dataimport/application/service.go:168-196 | create-only, a key absent before holds the value of the first record with that key |
| SeedContents.LastRecordWins | internal/dataimport/application/service.go:168-196 | reconciling, every record's key holds the value of the last record with it |
| SeedContents.OtherKeysStay | internal/dataimport/application/service.go:168-196 | no other key, and no other object type, is changed |
| Seeding.TallyTells | internal/dataimport/domain/dataimport.go:115-120 | created, updated and skipped account for every record, created for every new row, and none created or updated means no change |
| Seeding.SecondImportSkips | internal/pinax/seeder.go:119-120 | importing again create-only reports every record skipped |
| Seeding.Seeder.Seed | internal/pinax/seeder.go:61-103 | store, markers, completion and summaries of a run that may stop between any two durable actions |
| SeedContents.FirstBootHolds | internal/pinax/seeder.go:61-103 | a completed boot with no marker set leaves every key absent before with the value of the first record of any preset that claims it |
| SeedContents.ReconcileHolds | internal/pinax/seeder.go:61-103 | a completed reconcile leaves every claimed key with the value of the last record that claims it |
| SeedContents.UnclaimedStays | internal/pinax/seeder.go:61-103 | a run, cut short or not, leaves every row no preset claims as it was |
| SeedContents.CompletedRunImports | internal/pinax/seeder.go:61-103 | a completed run imports exactly the presets without a marker of their version, or all when reconciling, and leaves each so marked |
| Seeding.RunReports | internal/pinax/seeder.go:61-103 | a run's report names exactly the presets it imported, each with what its own import counted |
| Seeding.SortedBundleIsInOrder | internal/pinax/preset.go:151-196 | what the topological sort returns is a bundle in dependency order |
| Seeding.ImportsFollowTheirDependencies | internal/pinax/seeder.go:55-60 | from any stored state, in either mode, crashing anywhere, a preset is imported only when all before it are up to date; a completed run leaves all so |
| Seeding.SeededIsPrefix | internal/pinax/seeder.go:61-103 | after any boots and reconciles crashed anywhere, the up-to-date presets are a prefix of the order and closed under dependsOn |
| Seeding.SeededFromEmpty | internal/pinax/seeder.go:105-117 | the same from an empty seed state, whatever rows exist |
| Seeding.CompletedThenWarm | internal/pinax/seeder.go:57-59 | the boot after a completed run imports and changes nothing |
| Seeding.EnoughBudgetCompletes | internal/pinax/seeder.go:61-103 | a run that is not cut short completes |
| Seeding.BootsNeverOverwrite | internal/pinax/seeder.go:57-59 | any number of boots, crashed or not, leave existing rows as they were |
| Seeding.ImportIdempotent | internal/pinax/seeder.go:119-120 | repeating a create-only import after a crash before its marker changes nothing |
| Seeding.CrashedBootResumes | internal/pinax/seeder.go:119-120 | a full boot after a crashed one gives what one uninterrupted boot gives |
| Seeding.BootsConverge | internal/pinax/seeder.go:61-103 | any crashed boots and a full one reach the store of a single full boot |
| CheckDigits.DigitsFixed | pkg/personalcode/personalcode.go:123-132 | stripping non-digits yields digits and is idempotent |
| CheckDigits.KeepAppend | pkg/personalcode/personalcode.go:123-132 | stripping a text strips its pieces, in order |
| CheckDigits.ValidateARCUIL | pkg/personalcode/personalcode.go:291-312 | accepted are exactly eleven digits whose weighted total is 0 mod 11 |
| CheckDigits.CuilCatchesSubstitution | pkg/personalcode/personalcode.go:291-312 | every single wrong digit is caught |
| CheckDigits.CuilCatchesSwap | pkg/personalcode/personalcode.go:291-312 | every swap of unequal neighbours is caught |
| CheckDigits.ValidatePLPESEL | pkg/personalcode/personalcode.go:176-191 | accepted are exactly eleven digits whose weighted total is 0 mod 10 |
| CheckDigits.PeselCatchesSubstitution | pkg/personalcode/personalcode.go:176-191 | every single wrong digit is caught |
| CheckDigits.PeselSwapIff | pkg/personalcode/personalcode.go:176-191 | a swap of neighbours is missed exactly when they differ by 0 or 5 |
| CheckDigits.ValidateUARNOKPP | pkg/personalcode/personalcode.go:136-151 | accepted are exactly ten digits whose weighted sum is not negative and whose residue mod 11 mod 10 is the last digit |
| CheckDigits.RnokppRejectsNegative | pkg/personalcode/personalcode.go:141-150 | a negative weighted sum is rejected with every check digit |
| CheckDigits.RnokppSubstitutionIff | pkg/personalcode/personalcode.go:136-151 | a single wrong digit is missed exactly when it is among the first nine and moves the residue between 0 and 10 |
| CheckDigits.RnokppSwapIff | pkg/personalcode/personalcode.go:136-151 | a swap of unequal neighbours is missed exactly when the sum stays non-negative and the residue moves between 0 and 10, or, with the check digit, the two are 0 and 4 |
| CheckDigits.ValidateCLRUT | pkg/personalcode/personalcode.go:317-354 | the length, format and checksum outcomes, accepted exactly when body and verifier total 0 mod 11 |
| CheckDigits.RutVerifier | pkg/personalcode/personalcode.go:341-349 | the expected verifier is the one character completing the sum to a multiple of 11 |
| CheckDigits.RutLoop | pkg/personalcode/personalcode.go:334-340 | the cycling weight is 2 plus the reversed index mod 6, for a body of any length |
| CheckDigits.RutCatchesSubstitution | pkg/personalcode/personalcode.go:317-354 | every single wrong digit or verifier is caught |
| CheckDigits.RutCatchesSwap | pkg/personalcode/personalcode.go:317-354 | every swap of unequal neighbours is caught, digit verifier included |
| Luhn.LuhnLoop | pkg/personalcode/personalcode.go:428-439 | the alternating loop is the positional formula, at any length |
| Luhn.ValidatePAN | pkg/personalcode/personalcode.go:423-444 | accepted are exactly 12 to 19 digits whose Luhn sum is 0 mod 10 |
| Luhn.LuhnCatchesSubstitution | pkg/personalcode/personalcode.go:428-442 | every single wrong digit is caught |
| Luhn.LuhnSwapIff | pkg/personalcode/personalcode.go:428-442 | a swap of neighbours is missed exactly for equal digits and the pair 0 and 9 |
| Formulas.CuilFormula | pkg/personalcode/personalcode.go:291-312 | the CUIL rule, coefficient by coefficient |
| Formulas.PeselFormula | pkg/personalcode/personalcode.go:176-191 | the PESEL rule, coefficient by coefficient |
| Formulas.RnokppFormula | pkg/personalcode/personalcode.go:136-151 | the RNOKPP rule, coefficient by coefficient |
| Formulas.RutFormula | pkg/personalcode/personalcode.go:317-354 | the RUT rule for bodies of seven and eight digits, coefficient by coefficient |
| Formulas.LuhnFormula | pkg/personalcode/personalcode.go:428-439 | two digits at a time from the right: one as it is, the next doubled with the digits of its double added |
| Formulas.KnownCuil | pkg/personalcode/personalcode_test.go:130 | the number of the tests is accepted |
| Formulas.KnownPesel | pkg/personalcode/personalcode_test.go:49 | the number of the tests is accepted |
| Formulas.KnownRnokpp | pkg/personalcode/personalcode_test.go:13-14 | the number of the tests is accepted |
| Formulas.KnownRut | pkg/personalcode/personalcode_test.go:140 | the number of the tests is accepted, and one with another verifier is not |
| Formulas.KnownPan | pkg/personalcode/personalcode_test.go:199-223 | a published card number is accepted |
| Formulas.KnownIban | pkg/personalcode/personalcode_test.go:174-198 | the published code GB82WEST12345698765432 is accepted |
| Iban.ValidateIBAN | pkg/personalcode/personalcode.go:390-418 | accepted are exactly the well-formed codes whose whole rearranged, letter-expanded integer is 1 mod 97 |
| Iban.RemainderLoop | pkg/personalcode/personalcode.go:403-414 | the running remainder is that of the whole integer, at any length |
| Iban.AlphabetExpands | pkg/personalcode/personalcode.go:387-411 | a letter at place k of 0-9A-Z appends the digits of k, and a digit itself |
| Iban.CharValIsPlace | pkg/personalcode/personalcode.go:409-411 | the value the loop computes for a character is its place in that alphabet |
| Iban.NumberReads | pkg/personalcode/personalcode.go:403-414 | the expanded digits, read as decimal text, are the integer reduced |
| Iban.ConfusablePairs | pkg/personalcode/personalcode.go:403-414 | the pairs whose swap goes unseen are exactly 1 and B, 2 and M, 3 and X |
| Iban.FoldIsWhole | pkg/personalcode/personalcode.go:403-414 | folding character by character equals expanding and reducing once |
| Iban.IbanFixed | pkg/personalcode/personalcode.go:390-400 | an accepted form is its own normal form |
| Iban.IbanCatchesSubstitution | pkg/personalcode/personalcode.go:390-418 | any digit for another, or letter for another, is rejected |
| Iban.SwapChangesRemainderIff | pkg/personalcode/personalcode.go:403-414 | swapping neighbours leaves the remainder alone exactly when they are equal or a digit and the letter worth eleven times it |
| Iban.IbanSwapIff | pkg/personalcode/personalcode.go:390-418 | a transposition in an accepted code still has remainder 1 exactly for such a pair |
| IbanSwaps.IbanTypedSwapIff | pkg/personalcode/personalcode.go:390-418 | any neighbours of an accepted code swapped as typed, across the fourth and fifth characters too: accepted exactly when they are equal, or a digit and the letter worth eleven times it in the account part |
| IbanSwaps.OrderOfTen | pkg/personalcode/personalcode.go:403-414 | a power of ten is 1 mod 97 exactly when its exponent is a multiple of 96 |
| Base64.RoundTrip | pkg/listing/listing.go:48-53 | each of the four encodings decodes what it encodes |
| Base64.AlphabetIs | pkg/listing/listing.go:48-53 | the characters of both alphabets, in the order of their values |
| Base64.DecodesIff | pkg/listing/listing.go:113-125 | a decoder accepts exactly the tokens that, newlines dropped, are alphabet characters and padding in the right number |
| Base64.EncodesBack | pkg/listing/listing.go:113-125 | encoding what a token decodes to gives the token back, but perhaps for the last letter |
| Base64.Vectors | pkg/listing/listing.go:48-53 | the groups of the vectors of section 10 of RFC 4648 |
| Base64.FinalGroups | pkg/listing/listing.go:48-53 | one byte left over makes two letters and two =, two bytes three letters and one, or no = when unpadded |
| Base64.DecodersAgree | pkg/listing/listing.go:113-125 | two encodings that both accept a token read the same bytes in it |
| Listing.DecodeBase64 | pkg/listing/listing.go:113-125 | succeeds exactly when some encoding accepts, with the bytes every accepting encoding gives |
| Listing.TolerantIs | pkg/listing/listing.go:110-125 | trial order does not matter, and tokens of all four encodings decode |
| Listing.CursorRoundTrip | pkg/listing/listing.go:48-67 | cursors round-trip, are empty only for the empty id, and are URL-safe |
| Listing.FirstPage | pkg/listing/listing.go:58-108 | no token is the first page at any arity; a token no encoding accepts is refused |
| Listing.TwoParts | pkg/listing/listing.go:80-88 | parts are joined by the byte 0x1f |
| Listing.TupleRoundTrip | pkg/listing/listing.go:80-108 | tuples of non-empty separator-free parts decode at their own arity and no other |
| Listing.TupleRoundTripIff | pkg/listing/listing.go:80-108 | a tuple comes back exactly when its parts are non-empty and separator-free |
| Listing.ResolveIs | pkg/listing/listing.go:137-145 | no preference gets the default, too much the ceiling if there is one, anything else what it asks |
| Listing.ResolveClamps | pkg/listing/listing.go:137-145 | a sane policy never yields an empty or oversized page and honours exactly the allowed requests |
| Listing.ServePage | cmd/oikumenea/search_providers.go:246-252 | one request's rows and next token, which is empty exactly on the last page |
| Listing.WalkPages | cmd/oikumenea/search_providers.go:244-252 | following next tokens terminates and yields the whole list, no gap or repeat, every page but the last full |
| TypeTokens.Types | pkg/rid/registry.go:264-279 | every registered type, strictly by service, kind and code |
| TypeTokens.CountSlugs | pkg/rid/registry.go:299-302 | how many types hold each slug |
| TypeTokens.TokenOf | pkg/rid/registry.go:295-319 | the first holder of a slug keeps it and every later one is namespaced |
| TypeTokens.TokenForms | pkg/rid/registry.go:281-344 | a token is the name, after link__ for a link, with the service's name before it when a type of the same slug sorts earlier |
| TypeTokens.Reverse | pkg/rid/registry.go:322-328 | the reversed map inverts the tokens when they are unique, whatever order the map yields |
| TypeTokens.Tokens | pkg/rid/registry.go:322-328 | the table names only registered types by their own tokens, and every one of them when namespaced slugs are apart |
| TypeTokens.TokensUniqueIff | pkg/rid/registry.go:281-294 | tokens are unique exactly when each namespaced one misses every bare slug and every other namespaced one |
| TypeTokens.TokensUnique | pkg/rid/registry.go:281-294 | unique when namespaced slugs are distinct and meet no bare slug |
| TypeTokens.TokensCanCollide | pkg/rid/registry.go:330-344 | three types, two of which share a token |
| TypeTokens.TokenStableIff | pkg/rid/registry.go:281-294 | adding types changes a token exactly when its holder kept the bare slug and a newcomer with that slug sorts before it |

## Left out

- Envelope.DekCache.Get: does not model the mutex; each lookup and each fill is one step.
- Envelope.Unwrap: error texts are not modelled, here and elsewhere; which error and what it names are.
- Envelope.SealedOpensIff: does not distinguish a blob too short to hold a nonce from one that fails authentication.
- Seeding.Seeder.ImportRecords: stands for every importer, native ones included; the counts are those of the geo-countries handler, and fill-if-empty enrichment columns are not modelled.
- Seeding.Seeder.Seed: the summary stored beside a marker is not read back and is not modelled.
- Selection.Select: does not repeat the early return for a list of blanks alone, whose outcome the general case gives.
- Dashboard.KeptAreLargest: the religion tree's rank facet keeps the lowest ordinals under its cutoff instead; what holds of sums and buckets is proved for whatever a window keeps.
- Dashboard.BucketCountsItsCells: date truncation is part of the column, so a histogram bucket is matched to its truncated key and not to a date range.
- Presets.Loader.LoadAll: YAML and the directory walk are not modelled; an entry decodes to a preset, or could not be scanned, read or decoded.
- CheckDigits.ValidateCLRUT: upper-casing and trimming are those of ASCII text.
- The SSN, CURP, RFC, INN, SNILS and CPF validators and the regular-expression fallback: branches of the same kind.
- SplitPAN, DecodeCursorPtr, ResolvePtr, ArgTypes and the registry's getters: one-line accessors.
- SQL text, row-level security, advisory locks and the visibility predicate: replaced by an abstract table.
- Generated tables (the encrypted-table list, the facet catalog beyond its bands, action and type names): data.
- Command-line parsing, the dry-run census, configuration, logging, HTTP clients, the console and the demo generators: input and output.
- int64 overflow of a count, Unicode case folding and non-ASCII string order.
