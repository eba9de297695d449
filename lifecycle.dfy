/**
  The registry's bookkeeping as values: the map from composite key to entry,
  the expiry sweep, the two halves of `acquire` (reuse and miss) and the
  decrement step of `release`, as pure functions. The class in
  `ClientManager` is proved to follow them; the lemmas here state what the
  registry promises over whole sequences of calls.
 */
module Lifecycle {
  import opened Wrappers

  /** A client handle. Fresh handles are drawn from a counter, so two
      constructions never yield the same handle. */
  type Handle = nat

  type Key = string

  /** A registry entry: the shared client, its holder count, the time its
      count last dropped to zero (-1 while active) and its keep-alive. */
  datatype Entry = Entry(client: Handle, refCount: int, releaseTime: int, keepAliveMillis: int)

  type Clients = map<Key, Entry>

  /** Keep-alive in milliseconds fixed at entry creation: the requested
      seconds times 1000 when positive, otherwise zero (close at once). The
      product is formed in 64 bits from a 32-bit argument and cannot wrap. */
  function KeepAliveMillis(keepAliveSeconds: int): (ms: int)
    ensures ms >= 0 && ms % 1000 == 0
    ensures ms > 0 <==> keepAliveSeconds > 0
    ensures keepAliveSeconds > 0 ==> ms / 1000 == keepAliveSeconds
  {
    if keepAliveSeconds > 0 then keepAliveSeconds * 1000 else 0
  }

  /** The sweep's removal test: idle, stamped, with a grace period that has
      run out at `now`. */
  predicate Expired(e: Entry, now: int) {
    e.refCount == 0 && e.releaseTime > 0 && e.keepAliveMillis > 0 && now - e.releaseTime >= e.keepAliveMillis
  }

  function ExpiredKeys(m: Clients, now: int): (ks: set<Key>)
    ensures ks <= m.Keys
    ensures forall k :: k in m ==> (k in ks <==> Expired(m[k], now))
  {
    set k | k in m && Expired(m[k], now)
  }

  /** The clients of the entries stored under `ks`. */
  function ClientsOf(m: Clients, ks: set<Key>): (hs: set<Handle>)
    ensures forall k :: k in ks && k in m ==> m[k].client in hs
  {
    set k | k in ks && k in m :: m[k].client
  }

  /** `cleanupExpired` when every close succeeds: exactly the expired
      entries go, every other entry stays as it was. */
  function Sweep(m: Clients, now: int): (r: Clients)
    ensures r.Keys == m.Keys - ExpiredKeys(m, now)
    ensures forall k :: k in r ==> r[k] == m[k]
    ensures forall k :: k in m && m[k].refCount != 0 ==> k in r
  {
    m - ExpiredKeys(m, now)
  }

  /** The reuse path: one more holder, grace period cancelled, same client. */
  function Reuse(e: Entry): (r: Entry)
    ensures r.client == e.client && r.keepAliveMillis == e.keepAliveMillis
    ensures r.refCount == e.refCount + 1 && r.releaseTime == -1
  {
    e.(refCount := e.refCount + 1, releaseTime := -1)
  }

  /** The part of `acquire` after the sweep: reuse the entry under `key`, or
      insert a new one around the freshly built handle `built`. Returns the
      new map and the client handed to the caller. */
  function Admit(m: Clients, key: Key, keepAliveSeconds: int, built: Handle): (r: (Clients, Handle))
    ensures r.0.Keys == m.Keys + {key}
    ensures r.0[key].client == r.1
    ensures key in m ==> r.1 == m[key].client && r.0[key] == Reuse(m[key])
    ensures key !in m ==> r.1 == built && r.0[key] == Entry(built, 1, -1, KeepAliveMillis(keepAliveSeconds))
    ensures forall k :: k in m && k != key ==> r.0[k] == m[k]
  {
    if key in m then (m[key := Reuse(m[key])], m[key].client)
    else (m[key := Entry(built, 1, -1, KeepAliveMillis(keepAliveSeconds))], built)
  }

  /** What `release` does before its trailing sweep. `Ignored` covers the
      three early returns, which skip the sweep; otherwise the new map and
      the client to close at once, if any. */
  datatype ReleaseStep = Ignored | Decremented(clients: Clients, closing: Option<Handle>)

  /** True when `release` would act on the entry under `key`: a non-null
      client that is the one on record. */
  predicate Matches(m: Clients, key: Key, client: Option<Handle>) {
    client.Some? && key in m && m[key].client == client.value
  }

  function Relinquish(m: Clients, key: Key, client: Option<Handle>, stamp: int): (r: ReleaseStep)
    ensures r.Ignored? <==> !Matches(m, key, client)
    ensures r.Decremented? ==> r.clients.Keys <= m.Keys
    ensures r.Decremented? ==> forall k :: k in m && k != key ==> k in r.clients && r.clients[k] == m[k]
    // removed, and closed, exactly when the count reaches zero with no keep-alive
    ensures r.Decremented? ==>
              (key !in r.clients <==> m[key].refCount - 1 <= 0 && m[key].keepAliveMillis <= 0)
    ensures r.Decremented? ==> (r.closing.Some? <==> key !in r.clients)
    ensures r.Decremented? && r.closing.Some? ==> r.closing.value == m[key].client
    // otherwise one holder fewer, same client and keep-alive
    ensures r.Decremented? && key in r.clients ==>
              r.clients[key].client == m[key].client && r.clients[key].keepAliveMillis == m[key].keepAliveMillis &&
              r.clients[key].refCount == m[key].refCount - 1
    // the grace period starts only when the count reaches zero
    ensures r.Decremented? && key in r.clients ==>
              r.clients[key].releaseTime == (if m[key].refCount - 1 <= 0 then stamp else m[key].releaseTime)
  {
    if !Matches(m, key, client) then Ignored
    else
      var e := m[key];
      var remaining := e.refCount - 1;
      if remaining <= 0 then
        if e.keepAliveMillis <= 0 then Decremented(m - {key}, Some(e.client))
        else Decremented(m[key := e.(refCount := remaining, releaseTime := stamp)], None)
      else Decremented(m[key := e.(refCount := remaining)], None)
  }

  /** A second sweep at the same time finds nothing to remove. */
  lemma SweepIdempotent(m: Clients, now: int)
    ensures Sweep(Sweep(m, now), now) == Sweep(m, now)
  {
    assert ExpiredKeys(Sweep(m, now), now) == {};
  }

  /** Entries in use are never swept, whatever the time. */
  lemma SweepKeepsHeld(m: Clients, now: int, key: Key)
    requires key in m && m[key].refCount > 0
    ensures key in Sweep(m, now) && Sweep(m, now)[key] == m[key]
  {
  }

  /** The shape a registry keeps while every release matches an earlier
      acquire: counts are never negative, an active entry has no release
      time, and an idle entry always has a keep-alive to wait out. */
  ghost predicate Disciplined(m: Clients) {
    forall k :: k in m ==>
      m[k].refCount >= 0 &&
      (m[k].refCount > 0 ==> m[k].releaseTime == -1) &&
      (m[k].refCount == 0 ==> m[k].keepAliveMillis > 0)
  }

  lemma SweepDisciplined(m: Clients, now: int)
    requires Disciplined(m)
    ensures Disciplined(Sweep(m, now))
  {
  }

  lemma AdmitDisciplined(m: Clients, key: Key, keepAliveSeconds: int, built: Handle)
    requires Disciplined(m)
    ensures Disciplined(Admit(m, key, keepAliveSeconds, built).0)
  {
  }

  /** A release by a current holder keeps the registry disciplined. */
  lemma RelinquishDisciplined(m: Clients, key: Key, client: Option<Handle>, stamp: int)
    requires Disciplined(m)
    requires Matches(m, key, client) ==> m[key].refCount > 0
    ensures Relinquish(m, key, client, stamp).Decremented? ==> Disciplined(Relinquish(m, key, client, stamp).clients)
  {
  }

  // ---------------------------------------------------------------------
  // Calls on one key, replayed
  // ---------------------------------------------------------------------

  /** The registry map together with the next fresh handle id. */
  datatype World = World(clients: Clients, next: Handle)

  /** A call on one key: `acquire` with its keep-alive and clock reading, or
      `release` of the client on record with its two clock readings. */
  datatype Call = AcquireCall(keepAliveSeconds: int, now: int) | ReleaseCall(stamp: int, now: int)

  /** One call when every close and every construction succeeds. */
  function Step(w: World, key: Key, c: Call): (w': World)
    ensures w.next <= w'.next <= w.next + 1
    ensures c.ReleaseCall? ==> w'.next == w.next
    // a call on `key` never adds or changes the entry of another key
    ensures forall k :: k in w'.clients && k != key ==> k in w.clients && w'.clients[k] == w.clients[k]
  {
    match c
    case AcquireCall(ka, now) =>
      var swept := Sweep(w.clients, now);
      var (m, h) := Admit(swept, key, ka, w.next);
      World(m, if key in swept then w.next else w.next + 1)
    case ReleaseCall(stamp, now) =>
      var client := if key in w.clients then Some(w.clients[key].client) else None;
      match Relinquish(w.clients, key, client, stamp)
      case Ignored => w
      case Decremented(m, _) => World(Sweep(m, now), w.next)
  }

  /** An acquire step is the sweep followed by `Admit`, with a fresh handle
      drawn exactly on a miss. */
  lemma AcquireIsStep(w: World, key: Key, keepAliveSeconds: int, now: int, m: Clients, h: Handle, next: Handle)
    requires (m, h) == Admit(Sweep(w.clients, now), key, keepAliveSeconds, w.next)
    requires next == if key in Sweep(w.clients, now) then w.next else w.next + 1
    ensures World(m, next) == Step(w, key, AcquireCall(keepAliveSeconds, now))
  {
  }

  /** A release step of the client on record is the decrement followed by
      the sweep, and changes nothing for an absent key. */
  lemma ReleaseIsStep(w: World, key: Key, stamp: int, now: int, m: Clients)
    requires Relinquish(w.clients, key, if key in w.clients then Some(w.clients[key].client) else None, stamp).Ignored? ==>
               m == w.clients
    requires Relinquish(w.clients, key, if key in w.clients then Some(w.clients[key].client) else None, stamp).Decremented? ==>
               m == Sweep(Relinquish(w.clients, key, if key in w.clients then Some(w.clients[key].client) else None, stamp).clients, now)
    ensures World(m, w.next) == Step(w, key, ReleaseCall(stamp, now))
  {
  }

  function Replay(w: World, key: Key, calls: seq<Call>): (r: World)
    decreases |calls|
  {
    if calls == [] then w else Step(Replay(w, key, calls[..|calls| - 1]), key, calls[|calls| - 1])
  }

  /** Number of acquires minus number of releases. */
  function Balance(calls: seq<Call>): (b: int)
    decreases |calls|
  {
    if calls == [] then 0
    else Balance(calls[..|calls| - 1]) + (if calls[|calls| - 1].AcquireCall? then 1 else -1)
  }

  /** Every release is preceded by a matching acquire. */
  ghost predicate NeverOverReleased(calls: seq<Call>) {
    forall i :: 0 <= i <= |calls| ==> Balance(calls[..i]) >= 0
  }

  /** Replaying acquires and matched releases on a key the registry does not
      hold: the count is the number of acquires minus releases and never
      negative; while it is positive the entry cannot have been removed and
      is active; at zero the entry is gone or idle with a keep-alive. */
  lemma {:induction false} ReplayCounts(w: World, key: Key, calls: seq<Call>)
    requires key !in w.clients
    requires NeverOverReleased(calls)
    ensures var m := Replay(w, key, calls).clients;
            (key in m ==> m[key].refCount == Balance(calls) && m[key].refCount >= 0) &&
            (Balance(calls) > 0 ==> key in m && m[key].releaseTime == -1) &&
            (key in m && m[key].refCount == 0 ==> m[key].keepAliveMillis > 0)
    decreases |calls|
  {
    if calls != [] {
      var init := calls[..|calls| - 1];
      assert NeverOverReleased(init) by {
        forall i | 0 <= i <= |init| ensures Balance(init[..i]) >= 0 {
          assert init[..i] == calls[..i];
        }
      }
      ReplayCounts(w, key, init);
      assert calls[..|calls|] == calls;
    }
  }

  /** Replaying with positive clock readings at every release: an idle entry
      always carries a positive release time, so once its keep-alive has run
      out a sweep reclaims it. A release time is recorded whenever the count
      drops to zero. */
  lemma {:induction false} ReplayStamped(w: World, key: Key, calls: seq<Call>)
    requires key !in w.clients
    requires NeverOverReleased(calls)
    requires forall i :: 0 <= i < |calls| && calls[i].ReleaseCall? ==> calls[i].stamp > 0
    ensures var m := Replay(w, key, calls).clients;
            key in m && m[key].refCount == 0 ==>
              m[key].releaseTime > 0 &&
              forall now :: now - m[key].releaseTime >= m[key].keepAliveMillis ==> key !in Sweep(m, now)
    decreases |calls|
  {
    ReplayCounts(w, key, calls);
    if calls != [] {
      var init := calls[..|calls| - 1];
      assert NeverOverReleased(init) by {
        forall i | 0 <= i <= |init| ensures Balance(init[..i]) >= 0 {
          assert init[..i] == calls[..i];
        }
      }
      assert forall i :: 0 <= i < |init| && init[i].ReleaseCall? ==> init[i].stamp > 0 by {
        forall i | 0 <= i < |init| && init[i].ReleaseCall? ensures init[i].stamp > 0 {
          assert init[i] == calls[i];
        }
      }
      ReplayStamped(w, key, init);
      ReplayCounts(w, key, init);
      assert calls[..|calls|] == calls;
    }
  }

  /** While the count stays positive, every call on the key sees the same
      client: acquires reuse it and releases do not remove it. */
  lemma {:induction false} ReplayKeepsClient(w: World, key: Key, calls: seq<Call>)
    requires key in w.clients && w.clients[key].refCount > 0
    requires forall i :: 0 <= i <= |calls| ==> w.clients[key].refCount + Balance(calls[..i]) > 0
    ensures var m := Replay(w, key, calls).clients;
            key in m && m[key].client == w.clients[key].client &&
            m[key].refCount == w.clients[key].refCount + Balance(calls)
    decreases |calls|
  {
    if calls != [] {
      var init := calls[..|calls| - 1];
      forall i | 0 <= i <= |init| ensures w.clients[key].refCount + Balance(init[..i]) > 0 {
        assert init[..i] == calls[..i];
      }
      ReplayKeepsClient(w, key, init);
      assert calls[..|calls|] == calls;
    }
  }

  // ---------------------------------------------------------------------
  // Keep-alive scenarios
  // ---------------------------------------------------------------------

  /** With no keep-alive the last release removes the entry and hands its
      client over for closing. */
  lemma LastReleaseClosesAtOnce(m: Clients, key: Key, stamp: int)
    requires key in m && m[key].refCount == 1 && m[key].keepAliveMillis == 0
    ensures Relinquish(m, key, Some(m[key].client), stamp) == Decremented(m - {key}, Some(m[key].client))
  {
  }

  /** With a keep-alive, a release to zero at `t`, the sweep after it and an
      acquire before the grace period ends give back the same client. */
  lemma GraceReuse(m: Clients, key: Key, t: int, sweepNow: int, now: int, ka: int, built: Handle)
    requires key in m && m[key].refCount == 1 && m[key].keepAliveMillis > 0
    requires sweepNow - t < m[key].keepAliveMillis && now - t < m[key].keepAliveMillis
    ensures Relinquish(m, key, Some(m[key].client), t).Decremented?
    ensures var released := Sweep(Relinquish(m, key, Some(m[key].client), t).clients, sweepNow);
            var (m', h) := Admit(Sweep(released, now), key, ka, built);
            h == m[key].client && m'[key].refCount == 1 && m'[key].releaseTime == -1
  {
  }

  /** Once the grace period has run out the next acquire sweeps the idle
      entry and builds a fresh client. */
  lemma ExpiryBuildsFresh(m: Clients, key: Key, t: int, sweepNow: int, now: int, ka: int, built: Handle)
    requires key in m && m[key].refCount == 1 && m[key].keepAliveMillis > 0
    requires t > 0 && sweepNow - t < m[key].keepAliveMillis && now - t >= m[key].keepAliveMillis
    requires built != m[key].client
    ensures var released := Sweep(Relinquish(m, key, Some(m[key].client), t).clients, sweepNow);
            key in released && key !in Sweep(released, now) &&
            Admit(Sweep(released, now), key, ka, built).1 == built
  {
  }

  /** Releasing an idle entry once more drives its count to -1 and restamps
      it; while the count stays at -1 no sweep at any time reclaims it. */
  lemma OverReleaseNeverSwept(m: Clients, key: Key, t: int)
    requires key in m && m[key].refCount == 0 && m[key].keepAliveMillis > 0
    ensures var r := Relinquish(m, key, Some(m[key].client), t);
            r.Decremented? && key in r.clients && r.clients[key].refCount == -1 &&
            r.clients[key].releaseTime == t &&
            forall now :: key in Sweep(r.clients, now)
  {
  }

  /** After that over-release the count stays one below the number of
      holders. Two acquires followed by one release leave one caller holding
      the client, yet the count is 0 and the entry is stamped. Once the
      keep-alive has run out the next sweep removes it and its client is
      closed while still held. */
  lemma OverReleaseClosesHeldClient(w: World, key: Key, t1: int, s1: int, ka1: int, n1: int,
                                    ka2: int, n2: int, t2: int, s2: int, now: int)
    requires key in w.clients && w.clients[key].refCount == 0 && w.clients[key].keepAliveMillis > 0
    requires t2 > 0 && s2 - t2 < w.clients[key].keepAliveMillis && now - t2 >= w.clients[key].keepAliveMillis
    ensures var c := w.clients[key].client;
            var w1 := Step(w, key, ReleaseCall(t1, s1));
            var w2 := Step(w1, key, AcquireCall(ka1, n1));
            var w3 := Step(w2, key, AcquireCall(ka2, n2));
            var w4 := Step(w3, key, ReleaseCall(t2, s2));
            key in w3.clients && w3.clients[key].client == c &&
            key in w4.clients && w4.clients[key].client == c && w4.clients[key].refCount == 0 &&
            key !in Sweep(w4.clients, now)
  {
    var c := w.clients[key].client;
    var w1 := Step(w, key, ReleaseCall(t1, s1));
    assert w1.clients[key] == w.clients[key].(refCount := -1, releaseTime := t1);
    var w2 := Step(w1, key, AcquireCall(ka1, n1));
    assert w2.clients[key] == w.clients[key].(refCount := 0, releaseTime := -1);
    var w3 := Step(w2, key, AcquireCall(ka2, n2));
    assert w3.clients[key] == w.clients[key].(refCount := 1, releaseTime := -1);
  }

  /** Without keep-alive, one holder of a client shared by two releasing it
      twice removes the entry and hands the client over for closing while the
      other holder still uses it. */
  lemma DoubleReleaseClosesHeldClient(m: Clients, key: Key, t1: int, t2: int)
    requires key in m && m[key].refCount == 2 && m[key].keepAliveMillis <= 0
    ensures var c := m[key].client;
            var r1 := Relinquish(m, key, Some(c), t1);
            r1.Decremented? && key in r1.clients && r1.clients[key].client == c && r1.closing == None &&
            var r2 := Relinquish(r1.clients, key, Some(c), t2);
            r2.Decremented? && key !in r2.clients && r2.closing == Some(c)
  {
  }
}
