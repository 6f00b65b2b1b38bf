/**
 The ceremony session store (passkey/session_store.go). A put samples the clock
 before it takes the lock, so the sampled times may arrive in any order.
 */
module PasskeySessions {
  import opened Common
  import opened TtlQueue

  const DEFAULT_TTL := 300_000_000_000

  const DEFAULT_CAPACITY := 10_000

  method NewMemoryStore<V>(maxItems: int, ttl: int) returns (s: MemoryStore<V>)
    ensures fresh(s) && s.Valid() && s.Contents() == []
    ensures s.maxItems == if maxItems <= 0 then DEFAULT_CAPACITY else maxItems
    ensures s.ttl == if ttl <= 0 then DEFAULT_TTL else ttl
  {
    s := new MemoryStore(maxItems, ttl, DEFAULT_CAPACITY, DEFAULT_TTL);
  }

  /** What one take yields and leaves behind: the entry goes whether or not it had expired. */
  function Taken<V>(q: seq<Item<V>>, id: string, now: int): (Option<V>, seq<Item<V>>) {
    var found := Find(q, id);
    if id == "" || found.None? then (None, q)
    else (if now > found.value.expires then None else Some(found.value.value), Without(q, id))
  }

  /** The data is yielded until its expiry; exactly this id is gone either way, and the empty id takes nothing. */
  ghost predicate TakesRight<V>(q: seq<Item<V>>, id: string, now: int, data: Option<V>, r: seq<Item<V>>) {
    var found := Find(q, id);
    && data == (if id != "" && found.Some? && now <= found.value.expires then Some(found.value.value) else None)
    && (if id == "" then r == q else OnlyLost(q, id, r))
  }

  lemma TakenIsRight<V>(q: seq<Item<V>>, id: string, now: int)
    requires DistinctIds(q)
    ensures TakesRight(q, id, now, Taken(q, id, now).0, Taken(q, id, now).1)
  {
    WithoutLosesOnly(q, id);
  }

  /** `id` is the fresh random id, `sampled` the clock reading taken before the lock. */
  method PutSession<V>(s: MemoryStore<V>, id: string, data: V, sampled: int)
    requires s.Valid() && id !in s.items
    modifies s
    ensures s.Valid() && s.Contents() == Put(old(s.Contents()), s.maxItems, id, data, sampled, s.ttl)
  {
    s.PurgeExpired(sampled);
    s.Lookup(id);
    s.EvictOldest();
    s.Append(id, data, sampled + s.ttl);
  }

  method TakeSession<V>(s: MemoryStore<V>, id: string, now: int) returns (data: Option<V>)
    requires s.Valid()
    modifies s
    ensures s.Valid() && (data, s.Contents()) == Taken(old(s.Contents()), id, now)
    ensures TakesRight(old(s.Contents()), id, now, data, s.Contents())
  {
    TakenIsRight(s.Contents(), id, now);
    if id == "" {
      return None;
    }
    s.Lookup(id);
    if id !in s.items {
      return None;
    }
    var e := s.items[id];
    s.Delete(id);
    if now > e.expires {
      return None;
    }
    return Some(e.value);
  }

  /** Samples out of order leave an expired entry in the list: the purge stops at the live one in front of it. */
  lemma OutOfOrderPurgeMisses(ttl: int)
    requires ttl > 0
    ensures exists q: seq<Item<string>>, now: int :: DistinctIds(q) && PurgeFront(q, now) != Live(q, now)
              && q == Put(Put([], 2, "a", "x", 10, ttl), 2, "b", "y", 5, ttl)
  {
    var a, b := Item("a", "x", 10 + ttl), Item("b", "y", 5 + ttl);
    var none: seq<Item<string>> := [];
    assert PurgeFront(none, 10) == none && Without(none, "a") == none;
    assert Put(none, 2, "a", "x", 10, ttl) == none + [a] == [a];
    assert [a][1..] == none && Without([a], "b") == [a] + none == [a];
    var q := [a, b];
    assert Put([a], 2, "b", "y", 5, ttl) == [a] + [b] == q;
    PutKeepsShape([a], 2, "b", "y", 5, ttl, "b");
    var now := 6 + ttl;
    PurgeIsExactWhen(q, now);
    assert now <= q[0].expires && now > q[1].expires;
  }

  // ---------- Runs, in any schedule ----------

  datatype Event<V> = PutAt(id: string, data: V, sampled: int) | TakeAt(id: string, now: int)

  function Step<V>(q: seq<Item<V>>, max: nat, ttl: int, e: Event<V>): seq<Item<V>>
    requires max > 0
  {
    match e
    case PutAt(id, data, sampled) => Put(q, max, id, data, sampled, ttl)
    case TakeAt(id, now) => Taken(q, id, now).1
  }

  function Run<V>(max: nat, ttl: int, events: seq<Event<V>>): seq<Item<V>>
    requires max > 0
  {
    if events == [] then [] else Step(Run(max, ttl, events[..|events| - 1]), max, ttl, events[|events| - 1])
  }

  /** What the i-th event, a take, yields. */
  function Yield<V>(max: nat, ttl: int, events: seq<Event<V>>, i: nat): Option<V>
    requires max > 0 && i < |events| && events[i].TakeAt?
  {
    Taken(Run(max, ttl, events[..i]), events[i].id, events[i].now).0
  }

  predicate FreshIds<V>(events: seq<Event<V>>) {
    forall i, j :: 0 <= i < j < |events| && events[i].PutAt? && events[j].PutAt? ==> events[i].id != events[j].id
  }

  /** Whatever the samples, ids stay distinct and the capacity holds. */
  lemma {:induction false} RunKeepsShape<V>(max: nat, ttl: int, events: seq<Event<V>>)
    requires max > 0
    ensures DistinctIds(Run(max, ttl, events)) && |Run(max, ttl, events)| <= max
  {
    if events != [] {
      var q, e := Run(max, ttl, events[..|events| - 1]), events[|events| - 1];
      RunKeepsShape(max, ttl, events[..|events| - 1]);
      match e {
        case PutAt(id, data, sampled) => PutKeepsShape(q, max, id, data, sampled, ttl, id);
        case TakeAt(id, _) =>
          WithoutDistinct(q, id);
          WithoutIsNoLonger(q, id);
      }
    }
  }

  /** If the samples do arrive in order, every purge removes exactly the expired entries. */
  lemma {:induction false} OrderedSamplesPurgeExactly<V>(max: nat, ttl: int, events: seq<Event<V>>, t: int)
    requires max > 0
    requires forall i, j :: 0 <= i < j < |events| && events[i].PutAt? && events[j].PutAt? ==> events[i].sampled <= events[j].sampled
    requires forall i :: 0 <= i < |events| && events[i].PutAt? ==> events[i].sampled <= t
    ensures ByExpiry(Run(max, ttl, events)) && NotAfter(Run(max, ttl, events), t + ttl)
    ensures forall now :: PurgeFront(Run(max, ttl, events), now) == Live(Run(max, ttl, events), now)
  {
    if events != [] {
      var q, e := Run(max, ttl, events[..|events| - 1]), events[|events| - 1];
      match e {
        case PutAt(id, data, sampled) =>
          OrderedSamplesPurgeExactly(max, ttl, events[..|events| - 1], sampled);
          PutByExpiry(q, max, id, data, sampled, ttl);
          NotAfterLater(Run(max, ttl, events), sampled + ttl, t + ttl);
        case TakeAt(id, _) =>
          OrderedSamplesPurgeExactly(max, ttl, events[..|events| - 1], t);
          WithoutByExpiry(q, id, 0, t + ttl);
      }
    }
    forall now ensures PurgeFront(Run(max, ttl, events), now) == Live(Run(max, ttl, events), now) {
      OrderedPurgeIsExact(Run(max, ttl, events), now, t + ttl);
    }
  }

  // ---------- When the list stays in expiry order, exactly ----------

  /** The items were put, one after the other, by events numbered `from` or later. */
  ghost predicate InPutOrder<V(!new)>(q: seq<Item<V>>, events: seq<Event<V>>, ttl: int, from: nat)
    decreases |q|
  {
    q == [] || exists k: nat :: PutBy(q[0], events, ttl, from, k) && InPutOrder(q[1..], events, ttl, k + 1)
  }

  ghost predicate PutBy<V(!new)>(item: Item<V>, events: seq<Event<V>>, ttl: int, from: nat, k: nat) {
    from <= k < |events| && events[k].PutAt? && item == Item(events[k].id, events[k].data, events[k].sampled + ttl)
  }

  lemma {:induction false} InPutOrderTail<V(!new)>(q: seq<Item<V>>, events: seq<Event<V>>, ttl: int, from: nat)
    requires q != [] && InPutOrder(q, events, ttl, from)
    ensures InPutOrder(q[1..], events, ttl, from)
  {
    var k: nat :| PutBy(q[0], events, ttl, from, k) && InPutOrder(q[1..], events, ttl, k + 1);
    if q[1..] != [] {
      var l: nat :| PutBy(q[1..][0], events, ttl, k + 1, l) && InPutOrder(q[1..][1..], events, ttl, l + 1);
      assert PutBy(q[1..][0], events, ttl, from, l);
    }
  }

  lemma {:induction false} KeptInPutOrder<V(!new)>(q: seq<Item<V>>, events: seq<Event<V>>, ttl: int, from: nat,
                                                  now: int, id: string, max: nat)
    requires InPutOrder(q, events, ttl, from) && max > 0
    ensures InPutOrder(PurgeFront(q, now), events, ttl, from)
    ensures InPutOrder(Without(q, id), events, ttl, from)
    ensures InPutOrder(Evicted(q, max), events, ttl, from)
    decreases |q|
  {
    if q != [] {
      InPutOrderTail(q, events, ttl, from);
      KeptInPutOrder(q[1..], events, ttl, from, now, id, max);
      var k: nat :| PutBy(q[0], events, ttl, from, k) && InPutOrder(q[1..], events, ttl, k + 1);
      KeptInPutOrder(q[1..], events, ttl, k + 1, now, id, max);
      var rest := Without(q[1..], id);
      assert ([q[0]] + rest)[0] == q[0] && ([q[0]] + rest)[1..] == rest;
    }
  }

  lemma {:induction false} MoreEvents<V(!new)>(q: seq<Item<V>>, events: seq<Event<V>>, ttl: int, from: nat, e: Event<V>)
    requires InPutOrder(q, events, ttl, from)
    ensures InPutOrder(q, events + [e], ttl, from)
    decreases |q|
  {
    if q != [] {
      var k: nat :| PutBy(q[0], events, ttl, from, k) && InPutOrder(q[1..], events, ttl, k + 1);
      MoreEvents(q[1..], events, ttl, k + 1, e);
      assert PutBy(q[0], events + [e], ttl, from, k);
    }
  }

  lemma {:induction false} OneMorePut<V(!new)>(q: seq<Item<V>>, events: seq<Event<V>>, ttl: int, from: nat, e: Event<V>)
    requires InPutOrder(q, events, ttl, from) && e.PutAt? && from <= |events|
    ensures InPutOrder(q + [Item(e.id, e.data, e.sampled + ttl)], events + [e], ttl, from)
    decreases |q|
  {
    var last := Item(e.id, e.data, e.sampled + ttl);
    if q == [] {
      assert q + [last] == [last] && (q + [last])[1..] == [];
      assert PutBy((q + [last])[0], events + [e], ttl, from, |events|);
      assert InPutOrder((q + [last])[1..], events + [e], ttl, |events| + 1);
    } else {
      var k: nat :| PutBy(q[0], events, ttl, from, k) && InPutOrder(q[1..], events, ttl, k + 1);
      OneMorePut(q[1..], events, ttl, k + 1, e);
      assert (q + [last])[1..] == q[1..] + [last];
      assert PutBy((q + [last])[0], events + [e], ttl, from, k);
    }
  }

  /** In every schedule the list is in the order in which its items were put. */
  lemma {:induction false} RunInPutOrder<V(!new)>(max: nat, ttl: int, events: seq<Event<V>>)
    requires max > 0
    ensures InPutOrder(Run(max, ttl, events), events, ttl, 0)
  {
    if events != [] {
      var front, e := events[..|events| - 1], events[|events| - 1];
      var q := Run(max, ttl, front);
      RunInPutOrder(max, ttl, front);
      assert events == front + [e];
      match e {
        case PutAt(id, data, sampled) =>
          KeptInPutOrder(q, front, ttl, 0, sampled, id, max);
          KeptInPutOrder(PurgeFront(q, sampled), front, ttl, 0, sampled, id, max);
          KeptInPutOrder(Without(PurgeFront(q, sampled), id), front, ttl, 0, sampled, id, max);
          OneMorePut(Kept(q, max, id, sampled), front, ttl, 0, e);
        case TakeAt(id, now) =>
          KeptInPutOrder(q, front, ttl, 0, now, id, max);
          MoreEvents(Step(q, max, ttl, e), front, ttl, 0, e);
      }
    }
  }

  /** The event that put the item at a place; later places have later events. */
  lemma {:induction false} WhoPut<V(!new)>(q: seq<Item<V>>, events: seq<Event<V>>, ttl: int, from: nat, i: nat) returns (k: nat)
    requires InPutOrder(q, events, ttl, from) && i < |q|
    ensures PutBy(q[i], events, ttl, from, k) && InPutOrder(q[i + 1..], events, ttl, k + 1)
    decreases i
  {
    k :| PutBy(q[0], events, ttl, from, k) && InPutOrder(q[1..], events, ttl, k + 1);
    if i > 0 {
      var first := k;
      k := WhoPut(q[1..], events, ttl, first + 1, i - 1);
      assert q[1..][i..] == q[i + 1..];
    }
  }

  lemma WhoPutPair<V(!new)>(q: seq<Item<V>>, events: seq<Event<V>>, ttl: int, i: nat, j: nat) returns (k: nat, l: nat)
    requires InPutOrder(q, events, ttl, 0) && i < j < |q|
    ensures PutBy(q[i], events, ttl, 0, k) && PutBy(q[j], events, ttl, 0, l) && k < l
  {
    k := WhoPut(q, events, ttl, 0, i);
    l := WhoPut(q[i + 1..], events, ttl, k + 1, j - i - 1);
    assert q[i + 1..][j - i - 1] == q[j];
  }

  lemma {:induction false} FindAt<V>(q: seq<Item<V>>, i: nat)
    requires DistinctIds(q) && i < |q|
    ensures Find(q, q[i].id) == Some(q[i])
  {
    if i > 0 {
      FindAt(q[1..], i - 1);
      assert q[1..][i - 1] == q[i];
    }
  }

  lemma {:induction false} PlaceOf<V>(q: seq<Item<V>>, id: string) returns (i: nat)
    requires Find(q, id).Some?
    ensures i < |q| && q[i] == Find(q, id).value && q[i].id == id
  {
    if q[0].id == id {
      i := 0;
    } else {
      var j := PlaceOf(q[1..], id);
      i := j + 1;
    }
  }

  predicate HeldPut<V>(q: seq<Item<V>>, e: Event<V>) {
    e.PutAt? && Find(q, e.id).Some?
  }

  /** Of the puts whose sessions are still held, no later one sampled an earlier time. */
  ghost predicate HeldSamplesInOrder<V(!new)>(q: seq<Item<V>>, events: seq<Event<V>>) {
    forall k, l :: 0 <= k < l < |events| && HeldPut(q, events[k]) && HeldPut(q, events[l]) ==>
      events[k].sampled <= events[l].sampled
  }

  lemma SamplesOrderExpiries<V(!new)>(q: seq<Item<V>>, events: seq<Event<V>>, ttl: int, i: nat, j: nat)
    requires DistinctIds(q) && InPutOrder(q, events, ttl, 0) && HeldSamplesInOrder(q, events) && i < j < |q|
    ensures q[i].expires <= q[j].expires
  {
    FindAt(q, i);
    FindAt(q, j);
    var k, l := WhoPutPair(q, events, ttl, i, j);
  }

  lemma ExpiriesOrderSamples<V(!new)>(q: seq<Item<V>>, events: seq<Event<V>>, ttl: int, k: nat, l: nat)
    requires FreshIds(events) && InPutOrder(q, events, ttl, 0)
    requires forall i, j :: 0 <= i < j < |q| ==> q[i].expires <= q[j].expires
    requires k < l < |events| && HeldPut(q, events[k]) && HeldPut(q, events[l])
    ensures events[k].sampled <= events[l].sampled
  {
    var i := PlaceOf(q, events[k].id);
    var j := PlaceOf(q, events[l].id);
    if i < j {
      var k', l' := WhoPutPair(q, events, ttl, i, j);
      assert k' == k && l' == l;
    } else if j < i {
      var l', k' := WhoPutPair(q, events, ttl, j, i);
      assert false;
    } else {
      assert false;
    }
  }

  /**
   Over every schedule with fresh ids: the list is in expiry order, and so every purge at any time is
   exact, if and only if the puts still held sampled the clock in the order they got the lock.
   */
  lemma OrderedExactlyWhenHeldSamplesAre<V(!new)>(max: nat, ttl: int, events: seq<Event<V>>)
    requires max > 0 && FreshIds(events)
    ensures var q := Run(max, ttl, events);
      && (ByExpiry(q) <==> HeldSamplesInOrder(q, events))
      && ((forall now :: PurgeFront(q, now) == Live(q, now)) <==> HeldSamplesInOrder(q, events))
  {
    var q := Run(max, ttl, events);
    RunKeepsShape(max, ttl, events);
    RunInPutOrder(max, ttl, events);
    ByExpiryPairwise(q);
    PurgesExactlyWhenOrdered(q);
    if HeldSamplesInOrder(q, events) {
      forall i, j | 0 <= i < j < |q| ensures q[i].expires <= q[j].expires {
        SamplesOrderExpiries(q, events, ttl, i, j);
      }
    }
    if ByExpiry(q) {
      forall k, l | 0 <= k < l < |events| && HeldPut(q, events[k]) && HeldPut(q, events[l])
        ensures events[k].sampled <= events[l].sampled
      {
        ExpiriesOrderSamples(q, events, ttl, k, l);
      }
    }
  }

  /** An item held after `n` events was put by one of them and not taken since. */
  lemma {:induction false} HeldWasPut<V>(max: nat, ttl: int, events: seq<Event<V>>, id: string) returns (k: nat)
    requires max > 0 && Find(Run(max, ttl, events), id).Some?
    ensures k < |events| && events[k].PutAt? && events[k].id == id
    ensures Find(Run(max, ttl, events), id) == Some(Item(id, events[k].data, events[k].sampled + ttl))
    ensures id != "" ==> forall l :: k < l < |events| ==> !(events[l].TakeAt? && events[l].id == id)
  {
    var n := |events| - 1;
    var q, e := Run(max, ttl, events[..n]), events[n];
    RunKeepsShape(max, ttl, events[..n]);
    if e.PutAt? {
      PutKeepsShape(q, max, e.id, e.data, e.sampled, ttl, id);
      if e.id == id {
        k := n;
        return;
      }
    } else {
      FindWithout(q, e.id, id);
    }
    k := HeldWasPut(max, ttl, events[..n], id);
  }

  /** A successful take yields exactly what was put under that id, no later than its ttl. */
  lemma YieldIsWhatWasPut<V>(max: nat, ttl: int, events: seq<Event<V>>, i: nat) returns (k: nat)
    requires max > 0 && i < |events| && events[i].TakeAt? && Yield(max, ttl, events, i).Some?
    ensures k < i && events[k].PutAt? && events[k].id == events[i].id
    ensures Yield(max, ttl, events, i) == Some(events[k].data) && events[i].now <= events[k].sampled + ttl
    ensures forall l :: k < l < i ==> !(events[l].TakeAt? && events[l].id == events[i].id)
  {
    k := HeldWasPut(max, ttl, events[..i], events[i].id);
    forall l | k < l < i ensures !(events[l].TakeAt? && events[l].id == events[i].id) {
      assert events[..i][l] == events[l];
    }
  }

  /** No session is taken twice, in any schedule. */
  lemma TakenAtMostOnce<V>(max: nat, ttl: int, events: seq<Event<V>>, i: nat, j: nat)
    requires max > 0 && FreshIds(events) && i < j < |events|
    requires events[i].TakeAt? && events[j].TakeAt? && events[i].id == events[j].id
    ensures Yield(max, ttl, events, i).None? || Yield(max, ttl, events, j).None?
  {
    if Yield(max, ttl, events, i).Some? && Yield(max, ttl, events, j).Some? {
      var k := YieldIsWhatWasPut(max, ttl, events, i);
      var k' := YieldIsWhatWasPut(max, ttl, events, j);
    }
  }

  // ---------- What stays takeable ----------

  /** How many items stand behind the one with this id. */
  function Behind<V>(q: seq<Item<V>>, id: string): nat {
    if q == [] then 0 else if q[0].id == id then |q| - 1 else Behind(q[1..], id)
  }

  /** The item is there, unexpired at `t`, with at most `n` items behind it. */
  ghost predicate Holds<V>(q: seq<Item<V>>, item: Item<V>, n: int) {
    Find(q, item.id) == Some(item) && Behind(q, item.id) <= n
  }

  lemma {:induction false} PurgeHolds<V>(q: seq<Item<V>>, item: Item<V>, n: int, now: int)
    requires Holds(q, item, n) && now <= item.expires
    ensures Holds(PurgeFront(q, now), item, n)
  {
    if q != [] && now > q[0].expires {
      PurgeHolds(q[1..], item, n, now);
    }
  }

  lemma {:induction false} WithoutHolds<V>(q: seq<Item<V>>, item: Item<V>, n: int, id: string)
    requires Holds(q, item, n) && id != item.id
    ensures Holds(Without(q, id), item, n)
  {
    if q != [] {
      if q[0].id == item.id {
        WithoutIsNoLonger(q[1..], id);
      } else {
        WithoutHolds(q[1..], item, n, id);
        assert q[0].id != id ==> Without(q, id)[1..] == Without(q[1..], id);
      }
    }
  }

  lemma {:induction false} EvictHolds<V>(q: seq<Item<V>>, item: Item<V>, n: int, max: nat)
    requires Holds(q, item, n) && n + 1 < max
    ensures Holds(Evicted(q, max), item, n)
  {
    if |q| >= max {
      EvictHolds(q[1..], item, n, max);
    }
  }

  lemma {:induction false} AppendHolds<V>(q: seq<Item<V>>, item: Item<V>, n: int, last: Item<V>)
    requires Holds(q, item, n)
    ensures Holds(q + [last], item, n + 1)
  {
    if q[0].id != item.id {
      assert (q + [last])[1..] == q[1..] + [last];
      AppendHolds(q[1..], item, n, last);
    }
  }

  lemma {:induction false} LastHolds<V>(q: seq<Item<V>>, item: Item<V>)
    requires Find(q, item.id).None?
    ensures Holds(q + [item], item, 0)
  {
    if q == [] {
      assert q + [item] == [item];
    } else {
      assert (q + [item])[1..] == q[1..] + [item];
      LastHolds(q[1..], item);
    }
  }

  function PutsBetween<V>(events: seq<Event<V>>, k: nat, n: nat): nat
    requires k <= n <= |events|
  {
    if k == n then 0 else PutsBetween(events, k, n - 1) + if events[n - 1].PutAt? then 1 else 0
  }

  /** One step moves an item at most one place, if it does not take it and no clock sample is beyond its expiry. */
  lemma StepHolds<V>(q: seq<Item<V>>, max: nat, ttl: int, item: Item<V>, n: int, e: Event<V>)
    requires max > 0 && Holds(q, item, n) && e.id != item.id
    requires e.PutAt? ==> n + 1 < max && e.sampled <= item.expires
    ensures Holds(Step(q, max, ttl, e), item, n + if e.PutAt? then 1 else 0)
  {
    if e.PutAt? {
      PurgeHolds(q, item, n, e.sampled);
      WithoutHolds(PurgeFront(q, e.sampled), item, n, e.id);
      EvictHolds(Without(PurgeFront(q, e.sampled), e.id), item, n, max);
      AppendHolds(Kept(q, max, e.id, e.sampled), item, n, Item(e.id, e.data, e.sampled + ttl));
    } else if e.id != "" {
      WithoutHolds(q, item, n, e.id);
    }
  }

  lemma {:induction false} StaysHeld<V>(max: nat, ttl: int, events: seq<Event<V>>, k: nat, n: nat)
    requires max > 0 && FreshIds(events) && k < n <= |events| && events[k].PutAt?
    requires forall l :: k < l < n ==> !(events[l].TakeAt? && events[l].id == events[k].id)
    requires PutsBetween(events, k + 1, n) < max
    requires forall l :: k < l < n && events[l].PutAt? ==> events[l].sampled <= events[k].sampled + ttl
    ensures Holds(Run(max, ttl, events[..n]), Item(events[k].id, events[k].data, events[k].sampled + ttl),
                  PutsBetween(events, k + 1, n))
    decreases n
  {
    var put, e := events[k], events[n - 1];
    var item := Item(put.id, put.data, put.sampled + ttl);
    assert events[..n][..n - 1] == events[..n - 1];
    var q := Run(max, ttl, events[..n - 1]);
    RunKeepsShape(max, ttl, events[..n - 1]);
    if n == k + 1 {
      KeptShape(q, max, put.id, put.sampled, put.id);
      LastHolds(Kept(q, max, put.id, put.sampled), item);
    } else {
      StaysHeld(max, ttl, events, k, n - 1);
      var m := PutsBetween(events, k + 1, n - 1);
      StepHolds(q, max, ttl, item, m, e);
    }
  }

  /**
   A session is takeable as long as fewer than `max` puts came after it, its ttl
   has not passed, and no later put sampled a time beyond the take's.
   */
  lemma TakeableWithinBounds<V>(max: nat, ttl: int, events: seq<Event<V>>, k: nat, j: nat)
    requires max > 0 && FreshIds(events) && k < j < |events|
    requires events[k].PutAt? && events[j].TakeAt? && events[j].id == events[k].id != ""
    requires forall l :: k < l < j ==> !(events[l].TakeAt? && events[l].id == events[k].id)
    requires PutsBetween(events, k + 1, j) < max
    requires events[j].now <= events[k].sampled + ttl
    requires forall l :: k < l < j && events[l].PutAt? ==> events[l].sampled <= events[j].now
    ensures Yield(max, ttl, events, j) == Some(events[k].data)
  {
    StaysHeld(max, ttl, events, k, j);
  }
}
