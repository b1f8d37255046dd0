# Relay-set calculation of a Nostr client, in Dafny

This project models the relay-routing core of the NDK Nostr client library
(`ndk/src/relay/sets/calculate.ts`). The core decides which relays receive
which requests:

- **Event router** (`calculateRelaySetFromEvent`): an outgoing event goes to every relay in the pool.
- **Write-relay lookup** (`getWriteRelaysFor`): the outbox tracker's record of the relays an author writes to.
  The result is `undefined` when there is no tracker or no record.
- **Filter sharder** (`calculateRelaySetsFromFilter`): splits a batch of subscription filters across relays.
  - It collects the distinct authors of the batch.
  - It assigns each author to its write relays. An author that has none falls back to every explicit relay.
  - Every assigned relay then gets one entry per filter. An author-bearing filter becomes a copy whose
    `authors` is that relay's whole author list. A filter without `authors` is passed on unchanged.
  - When no filter names an author, every explicit relay gets the batch as it is.
- **Batch entry point** (`calculateRelaySetsFromFilters`): delegates to the sharder.

The session is injected as plain values (`RelaySets.Session`): the pool's relay URLs, the tracker's
`author -> write relays` map, and the explicit relay URLs. Each of the three may be unset.
A filter (`RelaySets.Filter`) is an optional author list plus an opaque payload for its other criteria.
A present-but-empty author list (`Some([])`) is distinct from an absent one (`None`), as in JavaScript,
where `[]` is truthy.

Files:

- `wrappers.dfy`: `Option`.
- `seqs.dfy`: `NoDuplicates`, and `Dedup`, which is the contents of a JavaScript `Set` filled in order
  (a `Set` iterates in insertion order), with `FirstIndex` to state that order.
- `relay_sets.dfy`:
  - module `RelaySets`: the data model, the specification functions and the imperative operations.
  - module `RelaySetProperties`: the lemmas about the routing result.
- `scenarios.dfy`: concrete routing examples, each proved equal to an explicit result map.

The imperative operations keep the source's loops: set filling, get-or-default/append/set on the
relay map, and the nested loops that append to each relay's filter list. The two sharder entry points
are proved to compute the specification function `RelaySets.Shard`. The helper operations are proved
to compute its parts: `AuthorUnion` (the distinct authors), `RelayAuthors` (each relay's author list,
built from `Served`) and `Distribute` (each relay's filters, built from `Rewrite`). The event router
is proved to return the pool's relays. The lemmas state the routing properties about these functions.

In three places the code's behaviour is not what a reader of a sharder might expect. The model
follows the code in each:

- One might expect each copy's author list to be the intersection of the filter's authors with the
  relay's. The code uses the relay's whole author list (line 92). `ScenarioCopyWidensAuthors` shows a
  copy naming an author that its filter did not name.
- An empty author list could mean "no constraint" or "nobody". The code sends it down the
  author-bearing branch. Such a list adds no author to the union, but when the union is non-empty its
  filter is still copied with each relay's authors (`ScenarioEmptyAuthorList`). When the union is
  empty, it is broadcast unchanged (`ScenarioOnlyEmptyAuthorList`).
- Nothing stops the explicit relay list from naming a URL twice. The code appends an author once
  per occurrence of a URL in that list (`ScenarioRepeatedExplicitRelay`). That is why the no-duplicates
  property needs distinct explicit URLs.

## Model

| member | source | states |
|---|---|---|
| `RelaySets.CalculateRelaySetFromEvent` | ndk/src/relay/sets/calculate.ts:16-24 | The returned set holds exactly the pool's relays. It is empty when the pool is unset. |
| `RelaySets.GetWriteRelaysFor` | ndk/src/relay/sets/calculate.ts:26-30 | The result is undefined exactly when there is no tracker or the tracker has no record of the author. Otherwise it is the recorded write-relay set. |
| `RelaySets.FallbackRule` | ndk/src/relay/sets/calculate.ts:61-78 | An author reaches relay `u` exactly when `u` is in `RelaysFor`. `RelaysFor` is the tracker's set when a record exists and is non-empty. Otherwise it is the explicit relays, so an unset tracker, a missing record and an empty set all fall back. |
| `Seqs.Dedup` | ndk/src/relay/sets/calculate.ts:45-49 | The insertion-ordered set has exactly the elements added to it, each once. |
| `Seqs.DedupOrder` | ndk/src/relay/sets/calculate.ts:45-49 | The set iterates in order of first appearance: an element earlier in the set first occurs earlier in the added sequence. |
| `RelaySets.CollectAuthors` | ndk/src/relay/sets/calculate.ts:45-51 | The collected authors are the distinct authors named by the filters, in first-appearance order, with no duplicates. Filters without `authors` contribute none. |
| `RelaySets.AddAll` | ndk/src/relay/sets/calculate.ts:48-50 | Adding one filter's author list to the set gives the set of everything added so far. |
| `RelaySetProperties.AuthorsNamedMembership` | ndk/src/relay/sets/calculate.ts:47-51 | An author is in the batch exactly when some filter's author list names it. |
| `RelaySets.AppendToRelays` | ndk/src/relay/sets/calculate.ts:66-70 | The author is appended once to the list of each of its write relays, creating lists as needed. No other list changes. |
| `RelaySets.AppendToEach` | ndk/src/relay/sets/calculate.ts:73-77 | The author is appended to each explicit relay's list once per occurrence of that URL. No other list changes. |
| `RelaySets.LookUpWriteRelays` | ndk/src/relay/sets/calculate.ts:61 | The lookup returns the tracker's record of the author, or undefined without a tracker or a record. Its log holds exactly that one author. |
| `RelaySets.AddAuthor` | ndk/src/relay/sets/calculate.ts:59-78 | Each relay's list is extended by the author's appends for that relay. A key is added only where an append happened. The lookup log holds one entry, the author. |
| `RelaySets.BuildRelayAuthors` | ndk/src/relay/sets/calculate.ts:56-79 | The relay-to-authors map equals `RelayAuthors`, where each relay's list is `Served`. The joined lookup logs are exactly the input authors, in order, so each is looked up once. |
| `RelaySets.ServedMembership` | ndk/src/relay/sets/calculate.ts:59-79 | An author is in relay `u`'s accumulated list exactly when it is among the processed authors and is appended to `u`. |
| `RelaySets.AppendFilter` | ndk/src/relay/sets/calculate.ts:88-99 | Each relay's list gains one entry for the filter. The entry is a copy with the relay's authors if the filter has `authors`, and the filter itself otherwise. The key set is unchanged. |
| `RelaySets.DistributeFilters` | ndk/src/relay/sets/calculate.ts:81-100 | The result has exactly the keys of the relay map. Each value is the batch rewritten for that relay's authors. |
| `RelaySets.CalculateRelaySetsFromFilter` | ndk/src/relay/sets/calculate.ts:40-109 | The result is `Shard(session, filters)`. The joined logs of the tracker lookups have no duplicates and cover exactly the batch's authors, so each distinct author is looked up once. |
| `RelaySets.CalculateRelaySetsFromFilters` | ndk/src/relay/sets/calculate.ts:116-121 | Returns the same map as the sharder for the same inputs. |
| `RelaySetProperties.NoAuthorsBroadcast` | ndk/src/relay/sets/calculate.ts:101-105 | When no filter names an author, the result's keys are exactly the explicit relays. Each gets the input batch exactly as given. The result is empty when there are no explicit relays. |
| `RelaySetProperties.ServedNonEmpty` | ndk/src/relay/sets/calculate.ts:59-79 | A relay's list is non-empty exactly when the relay serves some processed author. |
| `RelaySetProperties.RelayAuthorsMembership` | ndk/src/relay/sets/calculate.ts:56-79 | Relay `u`'s author list holds exactly the batch's authors that `u` serves. No extraneous author appears. |
| `RelaySetProperties.ShardKeys` | ndk/src/relay/sets/calculate.ts:82-84 | When the batch names an author, the result's keys are exactly the relays serving at least one author of the batch. |
| `RelaySetProperties.ShardEmptyWithoutRelays` | ndk/src/relay/sets/calculate.ts:55-84 | If no author of the batch has write relays and there are no explicit relays, the result is empty. |
| `RelaySetProperties.RewriteAt` | ndk/src/relay/sets/calculate.ts:88-99 | A relay's rewritten list has one entry per filter. The i-th entry is derived from the i-th filter. |
| `RelaySetProperties.ShardOnePerFilter` | ndk/src/relay/sets/calculate.ts:86-100 | When the batch names an author, each relay's list has one entry per input filter, in input order. Each entry keeps its filter's other criteria and whether it has `authors`. |
| `RelaySetProperties.AuthorBearingCopy` | ndk/src/relay/sets/calculate.ts:89-93 | A filter with `authors` present (even `[]`) reaches relay `u` as a copy whose `authors` is `u`'s whole list. That list is exactly the batch's authors that `u` serves. |
| `RelaySetProperties.AuthorlessPassThrough` | ndk/src/relay/sets/calculate.ts:94-98 | A filter without `authors` reaches every relay of the result unmodified, at its own position. |
| `RelaySetProperties.ServedOnceWhenDistinct` | ndk/src/relay/sets/calculate.ts:66-77 | With distinct explicit URLs, each author is appended at most once per relay. The list is the processed authors that the relay serves, in processing order. |
| `RelaySetProperties.ServedOnceNoDuplicates` | ndk/src/relay/sets/calculate.ts:59-77 | Restricting a duplicate-free author sequence to a relay's authors leaves it duplicate-free. |
| `RelaySetProperties.RelayAuthorListsDistinct` | ndk/src/relay/sets/calculate.ts:45-77 | With distinct explicit URLs, each relay's author list has no duplicates. It is the batch's distinct authors that the relay serves, kept in the order of the author union. |
| `RelaySetProperties.ServedOrder` | ndk/src/relay/sets/calculate.ts:56-77 | A relay's list keeps the order in which distinct authors are processed: an earlier entry was processed no later. |
| `RelaySetProperties.RelayAuthorsOrder` | ndk/src/relay/sets/calculate.ts:45-79 | Each relay's author list follows the order in which the authors first appear across the filters. With distinct explicit URLs the order is strict. |
| `RelaySetScenarios.ScenarioPartialFallback` | ndk/src/relay/sets/calculate.ts:59-100 | Explicit `[R1]` and tracker `A -> {Rw}`, with one filter naming `A, B`, give `{Rw: [authors A], R1: [authors B]}`. |
| `RelaySetScenarios.ScenarioFullFallback` | ndk/src/relay/sets/calculate.ts:71-93 | Explicit `[R1, R2]` with an empty tracker give both relays the filter with authors `A, B`. |
| `RelaySetScenarios.ScenarioNoAuthors` | ndk/src/relay/sets/calculate.ts:101-105 | An author-less filter goes unchanged to both explicit relays. |
| `RelaySetScenarios.ScenarioCopyWidensAuthors` | ndk/src/relay/sets/calculate.ts:91-93 | Filters naming `A` and `B` separately both reach `R1` with authors `A, B`. |
| `RelaySetScenarios.ScenarioEmptyAuthorList` | ndk/src/relay/sets/calculate.ts:89-93 | An `authors: []` filter next to a filter naming `A` reaches `A`'s write relay as a copy naming `A`. |
| `RelaySetScenarios.ScenarioOnlyEmptyAuthorList` | ndk/src/relay/sets/calculate.ts:101-105 | A batch whose only author list is empty is broadcast unchanged to the explicit relays. |
| `RelaySetScenarios.ScenarioRepeatedExplicitRelay` | ndk/src/relay/sets/calculate.ts:73-77 | Explicit `[R1, R1]` gives `R1` the author twice. |

## Left out

- The `event` parameter of `calculateRelaySetFromEvent` is not modelled. The code never reads it; tag- and hashtag-aware routing is only a TODO comment (lines 10-11 and 19).
- The `NDKRelaySet` container and the `NDK` session object are foreign types. The model returns only the container's member set, as relay URLs, and takes the pool, tracker and explicit relays as values.
- Relays in the pool are identified by URL. Relay objects and connections are not modelled.
- The `ndk.debug` message (line 65) is diagnostic output and is dropped.
- The tracker's population and refresh, pool membership tracking and WebSocket connections are I/O or external state.
- The iteration order of JavaScript `Map` keys and of a write-relay `Set` is not modelled. Neither changes any relay's list, because each relay's list is independent of the order in which relays are visited. They do fix the key order of the relay map and so of the result (lines 66-69 and 82-84), which a Dafny `map` does not have. Order within each relay's author and filter lists is kept.
- Object spread copies only the fields of a filter. All fields besides `authors` make up the opaque `criteria` payload.
- Aliasing is not modelled: the copies at one relay share one author-list array, and in the no-author case the relays share the input array. The model works on values.
