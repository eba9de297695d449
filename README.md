# Shared Cosmos client registry

A Dafny model of `CosmosClientManager`, the process-wide registry that lets
short-lived Keycloak user-storage providers share one `CosmosClient` per
target. Providers don't open and close a connection each time. Instead each
one acquires a client under a composite key and releases it when done. The
key is endpoint, database and container joined by `|`, followed by the
hexadecimal `hashCode` of the account key. The registry counts holders per
key. When the count reaches zero, the entry is either:

- closed at once, when no keep-alive was requested, or
- stamped with its release time and kept for the keep-alive period.

A lazy sweep closes idle entries whose grace period has run out. The sweep
runs at the start of every `acquire` and at the end of every `release` that
acts.

The project has five modules:

- `Wrappers`: `Option` stands for a Java `null` reference; `Result` stands
  for a value or a thrown exception.
- `JavaText`: Java's `String.hashCode`, computed over UTF-16 code units with
  32-bit wrap-around, and `Integer.toHexString`. It also proves that the
  hexadecimal text reads back as the number.
- `ClientKey`: the composite key `key(...)`, including Java's rendering of a
  null part as the text `null`. It proves which information the key
  preserves and shows two credentials that share a key.
- `Lifecycle`: the registry as a value, a map from key to `Entry`, with pure
  functions for:
  - the expiry sweep;
  - the two paths of `acquire` after the sweep (reuse and miss);
  - the decrement step of `release`.

  Its lemmas cover whole sequences of calls on one key: count equals acquires
  minus releases, no removal while held, the same client while held, and the
  keep-alive scenarios.
- `ClientManager`: the class `Registry` with the map field `clients` and
  imperative methods for `acquire`, `release`, `cleanupExpired` and
  `safeClose`. Each method is proved against the `Lifecycle` functions. The
  class also keeps a ghost record of closed handles and of each handle's
  acquires and matching releases, under an invariant:
  - every client on record was built for its own key and is not closed;
  - no two keys share a client;
  - every count on record equals acquires minus matching releases.

Everything the registry cannot see is a parameter:

- **Clock:** the reading taken by `acquire`'s sweep (`now`); in `release`,
  the reading that stamps the idle entry (`stampNow`) and the second one
  taken by the trailing sweep (`sweepNow`).
- **Closing:** which clients fail to close (`closeFails`).
- **Building:** whether building a new client fails (`buildFails`).
- **Client identity:** new clients are numbered from the counter
  `nextHandle`, so two constructions never yield the same handle.

A failing close is rethrown by `safeClose`, so it ends the operation that
triggered it, with these effects:

- **During a sweep:** the sweep stops, and only part of the expired entries
  are gone. Iteration order is not fixed, so the set removed is a ghost
  out-parameter `swept` with its bounds stated.
- **During `acquire`'s sweep:** `acquire` fails without touching any count.
- **An immediate close in `release`:** the entry is already removed, and the
  trailing sweep does not run.

The model keeps one behaviour of the code exactly as written. A second
release of an idle entry, with the client on record, drives its count to -1
and restamps it. The sweep only takes entries whose count is exactly 0, so
while the count stays at -1 no sweep reclaims that entry
(`Lifecycle.OverReleaseNeverSwept`). The count then stays one below the real
number of holders. So a later sweep can close the client while it is still
held (`Lifecycle.OverReleaseClosesHeldClient`); without keep-alive, so can
an immediate close (`Lifecycle.DoubleReleaseClosesHeldClient`). The
non-negativity results therefore assume that every release matches an
earlier acquire. `Lifecycle.NeverOverReleased` states this for a replayed
call sequence, and `Registry.Holds` states it for one call on the class.

## Model

Source paths are relative to the repository root.

| member | source | states |
|---|---|---|
| JavaText.Utf16 | src/main/java/cz/oltisgroup/keycloak/cosmosdb/CosmosClientManager.java:39 | a character in the basic plane is stored as its own value; any other character as a high and a low surrogate that decode back to it |
| JavaText.StringHash | src/main/java/cz/oltisgroup/keycloak/cosmosdb/CosmosClientManager.java:39 | `hashCode` read as an unsigned 32-bit value: always below 2^32 |
| JavaText.ToHex | src/main/java/cz/oltisgroup/keycloak/cosmosdb/CosmosClientManager.java:39 | `Integer.toHexString` gives at least one lower-case hex digit, without a leading zero, and a single digit exactly for values below 16 |
| JavaText.HexRoundTrip | src/main/java/cz/oltisgroup/keycloak/cosmosdb/CosmosClientManager.java:39 | reading the hex text back gives the original number |
| JavaText.HexInjective | src/main/java/cz/oltisgroup/keycloak/cosmosdb/CosmosClientManager.java:39 | distinct hash values give distinct fingerprints |
| JavaText.Hex32Length | src/main/java/cz/oltisgroup/keycloak/cosmosdb/CosmosClientManager.java:39 | a 32-bit hash prints in one to eight digits |
| JavaText.Units | src/main/java/cz/oltisgroup/keycloak/cosmosdb/CosmosClientManager.java:39 | a string of n characters is stored as between n and 2n code units, each a 16-bit value |
| JavaText.UnitsOfChar | src/main/java/cz/oltisgroup/keycloak/cosmosdb/CosmosClientManager.java:39 | the units of a one-character string are that character's UTF-16 encoding |
| JavaText.UnitsSnoc | src/main/java/cz/oltisgroup/keycloak/cosmosdb/CosmosClientManager.java:39 | appending one character appends its UTF-16 encoding to the units |
| JavaText.UnitsAppend | src/main/java/cz/oltisgroup/keycloak/cosmosdb/CosmosClientManager.java:39 | the units of a concatenation are the units of the first part followed by those of the second, so a string's units are its characters' encodings in order |
| JavaText.HashOfPairString | src/main/java/cz/oltisgroup/keycloak/cosmosdb/CosmosClientManager.java:39 | a two-character string from the basic plane hashes to 31 times its first character plus its second |
| JavaText.HashCollision | src/main/java/cz/oltisgroup/keycloak/cosmosdb/CosmosClientManager.java:39 | the distinct strings "Aa" and "BB" have the same hash, 2112 |
| ClientKey.Render | src/main/java/cz/oltisgroup/keycloak/cosmosdb/CosmosClientManager.java:39 | string concatenation renders a null part as "null" and any other part as itself |
| ClientKey.Fingerprint | src/main/java/cz/oltisgroup/keycloak/cosmosdb/CosmosClientManager.java:39 | the account-key part is empty exactly for a null account key; otherwise it is non-empty hex text of at most eight digits with no separator, and it reads back as the key's hash |
| ClientKey.CompositeKey | src/main/java/cz/oltisgroup/keycloak/cosmosdb/CosmosClientManager.java:38-40 | the key starts with the rendered endpoint and a separator, and ends with the separator exactly when the account key is null; what else it determines is stated by `ClientKey.KeyDeterminesTarget` |
| ClientKey.KeyDeterminesTarget | src/main/java/cz/oltisgroup/keycloak/cosmosdb/CosmosClientManager.java:38-40 | when endpoint, db and container contain no separator, equal keys mean equal rendered endpoint, db and container, equal fingerprints, the same null-ness and the same hash of the account key |
| ClientKey.CredentialsCollide | src/main/java/cz/oltisgroup/keycloak/cosmosdb/CosmosClientManager.java:38-40 | two different account keys for the same target get the same registry key |
| ClientKey.CollidingCredentialShares | src/main/java/cz/oltisgroup/keycloak/cosmosdb/CosmosClientManager.java:52-58 | a caller whose account key collides with one already on record is silently handed the client built with the other credential |
| ClientKey.NullRendersAsText | src/main/java/cz/oltisgroup/keycloak/cosmosdb/CosmosClientManager.java:39 | a null endpoint and the endpoint text "null" give the same key |
| Lifecycle.KeepAliveMillis | src/main/java/cz/oltisgroup/keycloak/cosmosdb/CosmosClientManager.java:60 | keep-alive in ms is never negative, is a whole number of seconds, is positive exactly when the requested seconds are positive, and then equals seconds times 1000 |
| Lifecycle.ExpiredKeys | src/main/java/cz/oltisgroup/keycloak/cosmosdb/CosmosClientManager.java:105 | a key on record is selected exactly when its entry is idle (count 0), stamped, has a keep-alive, and its grace period has elapsed at `now` |
| Lifecycle.Sweep | src/main/java/cz/oltisgroup/keycloak/cosmosdb/CosmosClientManager.java:99-111 | exactly the expired keys disappear, every other entry is kept unchanged, and no entry with a non-zero count is removed |
| Lifecycle.Reuse | src/main/java/cz/oltisgroup/keycloak/cosmosdb/CosmosClientManager.java:55-56 | the reuse updates the entry: same client and keep-alive, one more holder, release time -1 |
| Lifecycle.Admit | src/main/java/cz/oltisgroup/keycloak/cosmosdb/CosmosClientManager.java:52-68 | present key: the stored client is returned and its entry reused; absent key: the built client is returned and inserted with count 1, release time -1 and the derived keep-alive; all other keys are unchanged |
| Lifecycle.Relinquish | src/main/java/cz/oltisgroup/keycloak/cosmosdb/CosmosClientManager.java:72-95 | the release step is ignored exactly for a null, unknown or mismatched client; the entry is removed (and its client handed over for closing) exactly when the count drops to ≤ 0 with no keep-alive; a kept entry has one holder fewer with the same client and keep-alive, and is stamped only when the count reaches ≤ 0; other keys are unchanged |
| Lifecycle.SweepIdempotent | src/main/java/cz/oltisgroup/keycloak/cosmosdb/CosmosClientManager.java:99-111 | a second sweep at the same time removes nothing |
| Lifecycle.SweepKeepsHeld | src/main/java/cz/oltisgroup/keycloak/cosmosdb/CosmosClientManager.java:105 | an entry with a positive count survives a sweep at any time, unchanged |
| Lifecycle.SweepDisciplined | src/main/java/cz/oltisgroup/keycloak/cosmosdb/CosmosClientManager.java:99-111 | a sweep keeps counts non-negative, active entries unstamped and idle entries with a keep-alive |
| Lifecycle.AdmitDisciplined | src/main/java/cz/oltisgroup/keycloak/cosmosdb/CosmosClientManager.java:52-68 | reuse and insertion keep that same shape |
| Lifecycle.RelinquishDisciplined | src/main/java/cz/oltisgroup/keycloak/cosmosdb/CosmosClientManager.java:83-95 | a release by a current holder keeps that same shape |
| Lifecycle.Step | src/main/java/cz/oltisgroup/keycloak/cosmosdb/CosmosClientManager.java:50-111 | one `acquire` or `release` call on a key in which every close and build succeeds: at most one new handle is drawn, and only by an acquire; no other key gains an entry or has its entry changed |
| Lifecycle.ReplayCounts | src/main/java/cz/oltisgroup/keycloak/cosmosdb/CosmosClientManager.java:50-111 | from an absent key, over any acquires and releases in which every close and every build succeeds, each release passes the client on record, and no prefix releases more than it acquired: the count equals acquires minus releases and is never negative; while it is positive the entry is present and active; an idle entry has a keep-alive |
| Lifecycle.ReplayKeepsClient | src/main/java/cz/oltisgroup/keycloak/cosmosdb/CosmosClientManager.java:53-95 | over acquires and releases in which every close and every build succeeds and each release passes the client on record: while the count stays positive, every call on the key sees the same client, and the count follows the balance of acquires and releases |
| Lifecycle.ReplayStamped | src/main/java/cz/oltisgroup/keycloak/cosmosdb/CosmosClientManager.java:26-27 | in a replay as for `Lifecycle.ReplayCounts` whose releases read positive clock values, an idle entry always carries a positive release time, so a sweep once its keep-alive has run out removes it |
| Lifecycle.AcquireIsStep | src/main/java/cz/oltisgroup/keycloak/cosmosdb/CosmosClientManager.java:50-69 | one acquire `Step` is the sweep followed by `Admit`, drawing a new handle exactly on a miss |
| Lifecycle.ReleaseIsStep | src/main/java/cz/oltisgroup/keycloak/cosmosdb/CosmosClientManager.java:71-97 | one release `Step` of the client on record is the decrement followed by the sweep, and an ignored release changes nothing |
| Lifecycle.LastReleaseClosesAtOnce | src/main/java/cz/oltisgroup/keycloak/cosmosdb/CosmosClientManager.java:84-88 | without keep-alive the last release removes the entry and hands its client over for closing |
| Lifecycle.GraceReuse | src/main/java/cz/oltisgroup/keycloak/cosmosdb/CosmosClientManager.java:53-91 | with a keep-alive, the last release, its sweep and an acquire before expiry return the same client with count 1, active again |
| Lifecycle.ExpiryBuildsFresh | src/main/java/cz/oltisgroup/keycloak/cosmosdb/CosmosClientManager.java:99-111 | after the grace period, the next acquire's sweep removes the idle entry, and the acquire returns a newly built client |
| Lifecycle.OverReleaseNeverSwept | src/main/java/cz/oltisgroup/keycloak/cosmosdb/CosmosClientManager.java:83-105 | releasing an idle entry again gives count -1 and a new stamp, and while the count is -1 no sweep at any time removes it |
| Lifecycle.OverReleaseClosesHeldClient | src/main/java/cz/oltisgroup/keycloak/cosmosdb/CosmosClientManager.java:53-105 | after that over-release, two acquires and one release leave one caller holding the same client at count 0, stamped; a sweep after the keep-alive then removes the entry, so its client is closed while still held |
| Lifecycle.DoubleReleaseClosesHeldClient | src/main/java/cz/oltisgroup/keycloak/cosmosdb/CosmosClientManager.java:83-88 | without keep-alive, one of two holders releasing twice removes the entry and hands its client over for closing while the other still holds it |
| ClientManager.ConsistentInjective | src/main/java/cz/oltisgroup/keycloak/cosmosdb/CosmosClientManager.java:60-67 | under the registry invariant no two keys on record share a client |
| ClientManager.StaleReleaseIgnored | src/main/java/cz/oltisgroup/keycloak/cosmosdb/CosmosClientManager.java:79-82 | under the registry invariant a closed client is never on record, so its release is ignored under every key: the identity check guards against stale clients |
| ClientManager.RemoveConsistent | src/main/java/cz/oltisgroup/keycloak/cosmosdb/CosmosClientManager.java:86-88 | removing an entry and closing its client keeps the invariant |
| ClientManager.ReuseConsistent | src/main/java/cz/oltisgroup/keycloak/cosmosdb/CosmosClientManager.java:55-56 | the reuse update, with one more acquire counted, keeps the invariant |
| ClientManager.InsertConsistent | src/main/java/cz/oltisgroup/keycloak/cosmosdb/CosmosClientManager.java:62-67 | the next handle is neither closed nor seen before; inserting it with one acquire keeps the invariant |
| ClientManager.DecrementConsistent | src/main/java/cz/oltisgroup/keycloak/cosmosdb/CosmosClientManager.java:83-91 | one holder fewer, with one more release counted, keeps the invariant |
| ClientManager.Registry.constructor | src/main/java/cz/oltisgroup/keycloak/cosmosdb/CosmosClientManager.java:34 | the registry starts empty, with nothing closed or handed out, and satisfies its invariant |
| ClientManager.Registry.SafeClose | src/main/java/cz/oltisgroup/keycloak/cosmosdb/CosmosClientManager.java:113-116 | the client is recorded as closed; the call throws exactly when its close fails |
| ClientManager.Registry.CleanupExpired | src/main/java/cz/oltisgroup/keycloak/cosmosdb/CosmosClientManager.java:99-111 | the loop removes and closes only expired entries, and removes all of them when no close fails (the result is then `Sweep`); a throw names a failed client among those removed; handles and history are unchanged; the invariant is kept |
| ClientManager.Registry.Admit | src/main/java/cz/oltisgroup/keycloak/cosmosdb/CosmosClientManager.java:52-68 | follows `Lifecycle.Admit`; the build can fail only on the miss path, and then nothing changes; reuse counts one acquire; a miss uses a never-seen, unclosed handle; the invariant and the disciplined shape are kept |
| ClientManager.Registry.Acquire | src/main/java/cz/oltisgroup/keycloak/cosmosdb/CosmosClientManager.java:50-69 | sweep, then `Lifecycle.Admit` on the swept map under the composite key; a close failure during the sweep names one of the swept clients and aborts with counts untouched; a build failure only on a miss; with no failing close and no failing build it returns a client, and the new map and handle counter are exactly one acquire `Lifecycle.Step` |
| ClientManager.Registry.Decrement | src/main/java/cz/oltisgroup/keycloak/cosmosdb/CosmosClientManager.java:83-95 | follows `Lifecycle.Relinquish`; an entry dropping to ≤ 0 with no keep-alive is removed before its client is closed, so it is gone even when the close throws; one release is counted |
| ClientManager.Registry.ReleaseMatched | src/main/java/cz/oltisgroup/keycloak/cosmosdb/CosmosClientManager.java:83-96 | the decrement, then the sweep at the second clock reading, skipped when the immediate close threw |
| ClientManager.Registry.Release | src/main/java/cz/oltisgroup/keycloak/cosmosdb/CosmosClientManager.java:71-97 | null, unknown and mismatched clients change nothing, never throw and skip the sweep; otherwise `Lifecycle.Relinquish` and then the sweep of the decremented map; only a failing close throws; a release by a holder keeps the disciplined shape; releasing the client on record (or null for an absent key) with no failing close is exactly one release `Lifecycle.Step` |

## Left out

- Concurrency: `ConcurrentHashMap`, `AtomicInteger`, `volatile` and
  `synchronized`. Every public operation is `synchronized`, so each call is
  modelled as running to completion on its own.
- Integer widths: the `AtomicInteger` count is unbounded here, so it does not
  wrap past 2^31-1. The `long` subtraction `now - releaseTime` does not
  overflow here. Neither is reachable with real clock values and holder
  counts.
- Logging: the `debugf`, `infof` and `warnf` calls.
- Building and closing clients: `CosmosClientBuilder` and `client.close()`
  are not modelled. A fresh handle counter and the `buildFails` and
  `closeFails` parameters stand in for them, and the exception payload is
  not modelled.
- `Entry` objects: these are mutated in place in the source but are values
  in the map here. An `Entry` never escapes `CLIENTS`, so no aliasing is
  lost.
- Sweep order: `cleanupExpired` follows the map's iteration order. The model
  leaves that order unspecified. When a close fails mid-sweep, only bounds
  on the set removed are stated.
- Storage provider code: the CRUD, query and adapter code in the storage
  provider is not part of this model (network calls into the Cosmos SDK and
  Keycloak superclasses). Neither are the provider factory and the smoke
  test.
- Keep-alive configuration: the keep-alive option is parsed in the provider
  and clamped to non-negative values. It is not modelled; `acquire` accepts
  any `keepAliveSeconds` and handles a non-positive value the way the code
  does.
- Unpaired surrogates: a Java `String` may hold a lone UTF-16 surrogate, which
  `hashCode` accepts, but a Dafny `char` is a Unicode scalar value. An account
  key, endpoint, database or container name holding one has no counterpart
  here.
- JavaText.StringHash: its contract states only the 32-bit range. The value
  itself is defined by the body, and the registry's proofs never depend on
  it.
