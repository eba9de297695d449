/**
  `CosmosClientManager`: the process-wide registry of shared clients. Every
  public operation of the source is `synchronized`, so each call here runs
  to completion before the next one starts.

  What the class cannot see is passed in: the clock readings
  (`System.currentTimeMillis`), which clients fail to close (`closeFails`)
  and whether building a new client fails (`buildFails`). Handles come from
  the counter `nextHandle`, standing for `CosmosClientBuilder.buildClient`.
  The ghost fields record every close and, per handle, the key it was
  built for and how many acquires and matching releases it has seen.
 */
module ClientManager {
  import opened Wrappers
  import opened Lifecycle
  import ClientKey

  /** Exceptions that leave the registry: `ModelException` from `safeClose`,
      and whatever the client builder throws. */
  datatype Failure = CloseFailed(client: Handle) | BuildFailed

  datatype Outcome = Done | Thrown(failure: Failure)

  /** What happened to one handle: the key it was built for, and how often it
      was handed out and given back. */
  datatype Tally = Tally(key: Key, acquired: nat, released: nat)

  type History = map<Handle, Tally>

  /** The history after one more acquire of `h`. */
  function CountAcquire(history: History, h: Handle): (r: History)
    requires h in history
  {
    history[h := history[h].(acquired := history[h].acquired + 1)]
  }

  /** The history after one more matching release of `h`. */
  function CountRelease(history: History, h: Handle): (r: History)
    requires h in history
  {
    history[h := history[h].(released := history[h].released + 1)]
  }

  /** The registry invariant on the values of its fields: every client on
      record was built for its own key (so no two keys share one), is not
      closed, and its count is acquires minus matching releases. */
  ghost predicate Consistent(m: Clients, next: Handle, closed: set<Handle>, history: History) {
    && (forall k :: k in m ==>
          m[k].client in history && history[m[k].client].key == k &&
          m[k].client !in closed &&
          m[k].refCount == history[m[k].client].acquired as int - history[m[k].client].released as int)
    && (forall h :: h in history ==> h < next)
    && (forall h :: h in closed ==> h < next)
  }

  /** Two keys on record never share a client. */
  lemma ConsistentInjective(m: Clients, next: Handle, closed: set<Handle>, history: History, k1: Key, k2: Key)
    requires Consistent(m, next, closed, history)
    requires k1 in m && k2 in m && k1 != k2
    ensures m[k1].client != m[k2].client
  {
  }

  /** The identity check in `release` guards against stale clients: a
      client that has been closed is never on record, so releasing it is
      ignored under any key, even after its key was given a new client. */
  lemma StaleReleaseIgnored(m: Clients, next: Handle, closed: set<Handle>, history: History,
                            key: Key, stale: Handle, stamp: int)
    requires Consistent(m, next, closed, history)
    requires stale in closed
    ensures Relinquish(m, key, Some(stale), stamp) == Ignored
  {
  }

  /** Removing an entry and closing its client keeps the invariant. */
  lemma RemoveConsistent(m: Clients, next: Handle, closed: set<Handle>, history: History, k: Key)
    requires Consistent(m, next, closed, history)
    requires k in m
    ensures Consistent(m - {k}, next, closed + {m[k].client}, history)
  {
  }

  /** Removing one more swept key from the map. */
  lemma SweepOneMore(m0: Clients, swept: set<Key>, k: Key)
    requires k in m0 && k !in swept
    ensures (m0 - swept) - {k} == m0 - (swept + {k})
    ensures ClientsOf(m0, swept + {k}) == ClientsOf(m0, swept) + {m0[k].client}
  {
  }

  /** One more holder of the entry under `k`. */
  lemma ReuseConsistent(m: Clients, next: Handle, closed: set<Handle>, history: History, k: Key)
    requires Consistent(m, next, closed, history)
    requires k in m
    ensures var h := m[k].client;
            Consistent(m[k := Reuse(m[k])], next, closed,
                       CountAcquire(history, h))
  {
  }

  /** A new entry around the next fresh handle. */
  lemma InsertConsistent(m: Clients, next: Handle, closed: set<Handle>, history: History, k: Key, keepAliveMillis: int)
    requires Consistent(m, next, closed, history)
    requires k !in m
    ensures next !in closed && next !in history
    ensures Consistent(m[k := Entry(next, 1, -1, keepAliveMillis)], next + 1, closed, history[next := Tally(k, 1, 0)])
  {
  }

  /** One matching release of the entry under `k`, with release time `t`. */
  lemma DecrementConsistent(m: Clients, next: Handle, closed: set<Handle>, history: History, k: Key, t: int)
    requires Consistent(m, next, closed, history)
    requires k in m
    ensures var h := m[k].client;
            Consistent(m[k := m[k].(refCount := m[k].refCount - 1, releaseTime := t)], next, closed,
                       CountRelease(history, h))
  {
  }

  class Registry {
    var clients: Clients
    var nextHandle: Handle
    ghost var closed: set<Handle>
    ghost var history: History

    ghost predicate Valid()
      reads this
    {
      Consistent(clients, nextHandle, closed, history)
    }

    /** The caller releasing `client` still holds it: it has been acquired
        more often than released. A null client is always safe to release. */
    ghost predicate Holds(client: Option<Handle>)
      reads this
    {
      client.Some? ==> client.value in history && history[client.value].acquired > history[client.value].released
    }

    constructor ()
      ensures Valid() && clients == map[] && nextHandle == 0 && closed == {} && history == map[]
    {
      clients := map[];
      nextHandle := 0;
      closed := {};
      history := map[];
    }

    /** `safeClose`: the close always happens; a failure is rethrown. */
    method SafeClose(client: Handle, closeFails: set<Handle>) returns (outcome: Outcome)
      modifies this`closed
      ensures closed == old(closed) + {client}
      ensures outcome == if client in closeFails then Thrown(CloseFailed(client)) else Done
    {
      closed := closed + {client};
      if client in closeFails {
        outcome := Thrown(CloseFailed(client));
      } else {
        outcome := Done;
      }
    }

    /** `cleanupExpired`: visits every entry in some order and removes and
        closes each expired one. A failing close ends the sweep there, so
        `swept` is then only part of the expired keys. */
    method CleanupExpired(now: int, closeFails: set<Handle>) returns (outcome: Outcome, ghost swept: set<Key>)
      requires Valid()
      modifies this
      ensures Valid()
      ensures swept <= ExpiredKeys(old(clients), now)
      ensures clients == old(clients) - swept
      ensures closed == old(closed) + ClientsOf(old(clients), swept)
      ensures outcome.Done? ==> swept == ExpiredKeys(old(clients), now) && clients == Sweep(old(clients), now)
      ensures outcome.Thrown? ==>
                outcome.failure.CloseFailed? && outcome.failure.client in closeFails &&
                outcome.failure.client in ClientsOf(old(clients), swept)
      ensures nextHandle == old(nextHandle) && history == old(history)
    {
      ghost var m0, c0 := clients, closed;
      var todo := clients.Keys;
      swept := {};
      outcome := Done;
      while todo != {}
        invariant todo <= m0.Keys
        invariant swept == ExpiredKeys(m0, now) - todo
        invariant clients == m0 - swept
        invariant closed == c0 + ClientsOf(m0, swept)
        invariant nextHandle == old(nextHandle) && history == old(history)
        invariant Valid()
        invariant outcome == Done
        decreases todo
      {
        var k :| k in todo;
        todo := todo - {k};
        var e := clients[k];
        if Expired(e, now) {
          RemoveConsistent(clients, nextHandle, closed, history, k);
          SweepOneMore(m0, swept, k);
          clients := clients - {k};
          swept := swept + {k};
          outcome := SafeClose(e.client, closeFails);
          if outcome.Thrown? {
            return;
          }
        }
      }
    }

    /** The rest of `acquire` once the sweep went through: reuse the entry
        under `composite`, or build a client and insert it with one holder. */
    method Admit(composite: Key, keepAliveSeconds: int, buildFails: bool) returns (r: Result<Handle, Failure>)
      requires Valid()
      modifies this
      ensures Valid()
      ensures closed == old(closed)
      ensures Disciplined(old(clients)) ==> Disciplined(clients)
      ensures r.Err? <==> buildFails && composite !in old(clients)
      ensures r.Err? ==> r.error == BuildFailed && clients == old(clients) && nextHandle == old(nextHandle) &&
                         history == old(history)
      ensures r.Ok? ==> (clients, r.value) == Lifecycle.Admit(old(clients), composite, keepAliveSeconds, old(nextHandle))
      ensures r.Ok? && composite in old(clients) ==>
                nextHandle == old(nextHandle) &&
                r.value in old(history) && history == CountAcquire(old(history), r.value)
      ensures r.Ok? && composite !in old(clients) ==>
                nextHandle == old(nextHandle) + 1 && r.value !in old(closed) && r.value !in old(history) &&
                history == old(history)[r.value := Tally(composite, 1, 0)]
    {
      if Disciplined(clients) {
        AdmitDisciplined(clients, composite, keepAliveSeconds, nextHandle);
      }
      if composite in clients {
        var e := clients[composite];
        ReuseConsistent(clients, nextHandle, closed, history, composite);
        clients := clients[composite := e.(refCount := e.refCount + 1, releaseTime := -1)];
        history := CountAcquire(history, e.client);
        return Ok(e.client);
      }
      var keepAliveMillis := KeepAliveMillis(keepAliveSeconds);
      if buildFails {
        return Err(BuildFailed);
      }
      var client := nextHandle;
      InsertConsistent(clients, nextHandle, closed, history, composite, keepAliveMillis);
      nextHandle := nextHandle + 1;
      clients := clients[composite := Entry(client, 1, -1, keepAliveMillis)];
      history := history[client := Tally(composite, 1, 0)];
      r := Ok(client);
    }

    /** `acquire`: sweep, then reuse the entry under the composite key or
        build a new client and record it with one holder. */
    method Acquire(endpoint: Option<string>, accountKey: Option<string>, db: Option<string>,
                   container: Option<string>, keepAliveSeconds: int, now: int,
                   closeFails: set<Handle>, buildFails: bool)
      returns (r: Result<Handle, Failure>, ghost key: Key, ghost swept: set<Key>)
      requires Valid()
      modifies this
      ensures Valid()
      ensures key == ClientKey.CompositeKey(endpoint, db, container, accountKey)
      ensures old(Disciplined(clients)) ==> Disciplined(clients)
      ensures swept <= ExpiredKeys(old(clients), now)
      ensures closed == old(closed) + ClientsOf(old(clients), swept)
      // a failing close during the sweep aborts the call with nothing else done
      ensures r.Err? && r.error.CloseFailed? ==>
                r.error.client in closeFails && r.error.client in ClientsOf(old(clients), swept) &&
                clients == old(clients) - swept &&
                nextHandle == old(nextHandle) && history == old(history)
      ensures !(r.Err? && r.error.CloseFailed?) ==> swept == ExpiredKeys(old(clients), now)
      // building fails only on the miss path, and records nothing
      ensures r.Err? && r.error.BuildFailed? ==>
                buildFails && key !in Sweep(old(clients), now) && clients == Sweep(old(clients), now) &&
                nextHandle == old(nextHandle) && history == old(history)
      ensures r.Err? ==> r.error.CloseFailed? || (buildFails && key !in Sweep(old(clients), now))
      // success: reuse or insert exactly as `Lifecycle.Admit` describes
      ensures r.Ok? ==>
                (clients, r.value) == Lifecycle.Admit(Sweep(old(clients), now), key, keepAliveSeconds, old(nextHandle))
      ensures r.Ok? && key in Sweep(old(clients), now) ==>
                nextHandle == old(nextHandle) &&
                r.value in old(history) && history == CountAcquire(old(history), r.value)
      ensures r.Ok? && key !in Sweep(old(clients), now) ==>
                nextHandle == old(nextHandle) + 1 && r.value !in old(closed) && r.value !in old(history) &&
                history == old(history)[r.value := Tally(key, 1, 0)]
      // when nothing fails, the call is one acquire step of the replay model
      ensures closeFails == {} && !buildFails ==>
                r.Ok? &&
                World(clients, nextHandle) == Step(World(old(clients), old(nextHandle)), key, AcquireCall(keepAliveSeconds, now))
    {
      if Disciplined(clients) {
        SweepDisciplined(clients, now);
      }
      var outcome;
      outcome, swept := CleanupExpired(now, closeFails);
      var composite := ClientKey.CompositeKey(endpoint, db, container, accountKey);
      key := composite;
      if outcome.Thrown? {
        return Err(outcome.failure), key, swept;
      }
      r := Admit(composite, keepAliveSeconds, buildFails);
      if r.Ok? {
        AcquireIsStep(World(old(clients), old(nextHandle)), key, keepAliveSeconds, now, clients, r.value, nextHandle);
      }
    }

    /** The decrement of a matching `release`, up to the trailing sweep:
        the entry is removed before its client is closed, so it is gone
        even when the close throws. */
    method Decrement(composite: Key, stampNow: int, closeFails: set<Handle>)
      returns (outcome: Outcome, ghost step: ReleaseStep)
      requires Valid()
      requires composite in clients
      modifies this
      ensures Valid()
      ensures step == Relinquish(old(clients), composite, Some(old(clients)[composite].client), stampNow)
      ensures step.Decremented? && clients == step.clients
      ensures closed == old(closed) + (if step.closing.Some? then {step.closing.value} else {})
      ensures outcome == if step.closing.Some? && step.closing.value in closeFails
                         then Thrown(CloseFailed(step.closing.value)) else Done
      ensures nextHandle == old(nextHandle)
      ensures var h := old(clients)[composite].client;
              h in old(history) && history == CountRelease(old(history), h)
    {
      var e := clients[composite];
      step := Relinquish(clients, composite, Some(e.client), stampNow);
      var remaining := e.refCount - 1;
      if remaining <= 0 {
        DecrementConsistent(clients, nextHandle, closed, history, composite, stampNow);
        history := CountRelease(history, e.client);
        if e.keepAliveMillis <= 0 {
          RemoveConsistent(clients[composite := e.(refCount := remaining, releaseTime := stampNow)],
                           nextHandle, closed, history, composite);
          assert clients[composite := e.(refCount := remaining, releaseTime := stampNow)] - {composite}
              == clients - {composite};
          clients := clients - {composite};
          outcome := SafeClose(e.client, closeFails);
        } else {
          clients := clients[composite := e.(refCount := remaining, releaseTime := stampNow)];
          outcome := Done;
        }
      } else {
        DecrementConsistent(clients, nextHandle, closed, history, composite, e.releaseTime);
        history := CountRelease(history, e.client);
        clients := clients[composite := e.(refCount := remaining, releaseTime := e.releaseTime)];
        outcome := Done;
      }
    }

    /** A matching `release`: the decrement, then the sweep at `sweepNow`
        unless closing the released client threw. */
    method ReleaseMatched(composite: Key, stampNow: int, sweepNow: int, closeFails: set<Handle>)
      returns (outcome: Outcome, ghost step: ReleaseStep, ghost swept: set<Key>)
      requires Valid()
      requires composite in clients
      modifies this
      ensures Valid()
      ensures step == Relinquish(old(clients), composite, Some(old(clients)[composite].client), stampNow)
      ensures step.Decremented?
      ensures nextHandle == old(nextHandle)
      ensures var h := old(clients)[composite].client;
              h in old(history) && history == CountRelease(old(history), h)
      ensures step.closing.Some? && step.closing.value in closeFails ==>
                outcome == Thrown(CloseFailed(step.closing.value)) && swept == {} &&
                clients == step.clients && closed == old(closed) + {step.closing.value}
      ensures !(step.closing.Some? && step.closing.value in closeFails) ==>
                swept <= ExpiredKeys(step.clients, sweepNow) && clients == step.clients - swept &&
                closed == old(closed) + (if step.closing.Some? then {step.closing.value} else {}) +
                          ClientsOf(step.clients, swept)
      ensures !(step.closing.Some? && step.closing.value in closeFails) && outcome.Done? ==>
                clients == Sweep(step.clients, sweepNow)
      ensures outcome.Thrown? ==> outcome.failure.CloseFailed? && outcome.failure.client in closeFails
    {
      swept := {};
      outcome, step := Decrement(composite, stampNow, closeFails);
      if outcome.Thrown? {
        return;
      }
      outcome, swept := CleanupExpired(sweepNow, closeFails);
    }

    /** `release`: ignore a null client, an unknown key or a client that is
        not the one on record; otherwise drop one holder, remove and close
        the entry at zero when it has no keep-alive, or start its grace
        period at `stampNow`; then sweep at `sweepNow`. */
    method Release(endpoint: Option<string>, accountKey: Option<string>, db: Option<string>,
                   container: Option<string>, client: Option<Handle>, stampNow: int, sweepNow: int,
                   closeFails: set<Handle>)
      returns (outcome: Outcome, ghost step: ReleaseStep, ghost swept: set<Key>)
      requires Valid()
      modifies this
      ensures Valid()
      ensures step == Relinquish(old(clients), ClientKey.CompositeKey(endpoint, db, container, accountKey), client, stampNow)
      ensures nextHandle == old(nextHandle)
      ensures old(Disciplined(clients)) && old(Holds(client)) ==> Disciplined(clients)
      // the three early returns change nothing and skip the sweep
      ensures step.Ignored? ==>
                outcome == Done && swept == {} && clients == old(clients) &&
                closed == old(closed) && history == old(history)
      ensures step.Decremented? ==>
                var h := client.value;
                h in old(history) && history == CountRelease(old(history), h)
      // an immediate close that fails: the entry is already gone, no sweep
      ensures step.Decremented? && step.closing.Some? && step.closing.value in closeFails ==>
                outcome == Thrown(CloseFailed(step.closing.value)) && swept == {} &&
                clients == step.clients && closed == old(closed) + {step.closing.value}
      // otherwise the sweep runs on the decremented map
      ensures step.Decremented? && !(step.closing.Some? && step.closing.value in closeFails) ==>
                swept <= ExpiredKeys(step.clients, sweepNow) && clients == step.clients - swept &&
                closed == old(closed) + (if step.closing.Some? then {step.closing.value} else {}) +
                          ClientsOf(step.clients, swept)
      ensures step.Decremented? && !(step.closing.Some? && step.closing.value in closeFails) && outcome.Done? ==>
                clients == Sweep(step.clients, sweepNow)
      ensures outcome.Thrown? ==> outcome.failure.CloseFailed? && outcome.failure.client in closeFails
      // releasing the client on record (or null for an absent key) with no
      // failing close is one release step of the replay model
      ensures var key := ClientKey.CompositeKey(endpoint, db, container, accountKey);
              closeFails == {} && client == (if key in old(clients) then Some(old(clients)[key].client) else None) ==>
                World(clients, nextHandle) == Step(World(old(clients), old(nextHandle)), key, ReleaseCall(stampNow, sweepNow))
    {
      swept := {};
      var composite := ClientKey.CompositeKey(endpoint, db, container, accountKey);
      step := Ignored;
      if client.None? {
        return Done, step, swept;
      }
      if composite !in clients {
        return Done, step, swept;
      }
      var e := clients[composite];
      if e.client != client.value {
        return Done, step, swept;
      }
      if Disciplined(clients) && Holds(client) {
        RelinquishDisciplined(clients, composite, client, stampNow);
        SweepDisciplined(Relinquish(clients, composite, client, stampNow).clients, sweepNow);
      }
      outcome, step, swept := ReleaseMatched(composite, stampNow, sweepNow, closeFails);
      if closeFails == {} {
        ReleaseIsStep(World(old(clients), old(nextHandle)), composite, stampNow, sweepNow, clients);
      }
    }
  }
}
