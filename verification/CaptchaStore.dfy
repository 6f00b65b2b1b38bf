/**
 The captcha answer store (captcha/store.go): replaces by id, reads with an
 optional burn, and samples the clock while it holds the lock.
 */
module CaptchaStore {
  import opened TtlQueue

  const DEFAULT_TTL := 300_000_000_000

  const DEFAULT_CAPACITY := 10_000

  method NewMemoryStore(maxItems: int, ttl: int) returns (s: MemoryStore<string>)
    ensures fresh(s) && s.Valid() && s.Contents() == []
    ensures s.maxItems == if maxItems <= 0 then DEFAULT_CAPACITY else maxItems
    ensures s.ttl == if ttl <= 0 then DEFAULT_TTL else ttl
  {
    s := new MemoryStore(maxItems, ttl, DEFAULT_CAPACITY, DEFAULT_TTL);
  }

  /** What one read answers and leaves behind. */
  function Read(q: seq<Item<string>>, id: string, clear: bool, now: int): (string, seq<Item<string>>) {
    var found := Find(q, id);
    if found.None? then ("", q)
    else if now > found.value.expires then ("", Without(q, id))
    else (found.value.value, if clear then Without(q, id) else q)
  }

  /**
   A value is read until its expiry. A read in time that does not clear, or of an unknown id, leaves
   everything; any other read takes out exactly this id.
   */
  ghost predicate ReadsRight(q: seq<Item<string>>, id: string, clear: bool, now: int, value: string, r: seq<Item<string>>) {
    var found := Find(q, id);
    var inTime := found.Some? && now <= found.value.expires;
    && value == (if inTime then found.value.value else "")
    && (found.None? || (inTime && !clear) ==> r == q)
    && (found.Some? && (clear || !inTime) ==> OnlyLost(q, id, r))
  }

  lemma ReadIsRight(q: seq<Item<string>>, id: string, clear: bool, now: int)
    requires DistinctIds(q)
    ensures ReadsRight(q, id, clear, now, Read(q, id, clear, now).0, Read(q, id, clear, now).1)
  {
    WithoutLosesOnly(q, id);
  }

  method Set(s: MemoryStore<string>, id: string, value: string, now: int)
    requires s.Valid()
    modifies s
    ensures s.Valid() && s.Contents() == Put(old(s.Contents()), s.maxItems, id, value, now, s.ttl)
  {
    s.PurgeExpired(now);
    s.DeleteOld(id);
    s.EvictOldest();
    s.Append(id, value, now + s.ttl);
  }

  method Get(s: MemoryStore<string>, id: string, clear: bool, now: int) returns (value: string)
    requires s.Valid()
    modifies s
    ensures s.Valid() && (value, s.Contents()) == Read(old(s.Contents()), id, clear, now)
    ensures ReadsRight(old(s.Contents()), id, clear, now, value, s.Contents())
  {
    ReadIsRight(s.Contents(), id, clear, now);
    s.Lookup(id);
    if id !in s.items {
      return "";
    }
    var e := s.items[id];
    if now > e.expires {
      s.Delete(id);
      return "";
    }
    if clear {
      s.Delete(id);
    }
    return e.value;
  }

  /** `same` is the comparison after trimming, without regard to case. */
  method Verify(s: MemoryStore<string>, id: string, answer: string, clear: bool, now: int, same: (string, string) -> bool)
    returns (ok: bool)
    requires s.Valid()
    modifies s
    ensures s.Valid()
    ensures id == "" || answer == "" ==> !ok && s.Contents() == old(s.Contents())
    ensures id != "" && answer != "" ==>
      var (value, q) := Read(old(s.Contents()), id, clear, now);
      && s.Contents() == q && (ok <==> value != "" && same(value, answer))
      && ReadsRight(old(s.Contents()), id, clear, now, value, s.Contents())
  {
    if id == "" || answer == "" {
      return false;
    }
    var value := Get(s, id, clear, now);
    if value == "" {
      return false;
    }
    return same(value, answer);
  }

  // ---------- With a clock that never goes back ----------

  /** The state between operations once the clock has reached `now`. */
  predicate Ordered(q: seq<Item<string>>, max: nat, now: int, ttl: int) {
    DistinctIds(q) && |q| <= max && ByExpiry(q) && NotAfter(q, now + ttl)
  }

  lemma SetStaysOrdered(q: seq<Item<string>>, max: nat, id: string, value: string, before: int, now: int, ttl: int)
    requires Ordered(q, max, before, ttl) && before <= now && max > 0
    ensures Ordered(Put(q, max, id, value, now, ttl), max, now, ttl)
  {
    NotAfterLater(q, before + ttl, now + ttl);
    PutByExpiry(q, max, id, value, now, ttl);
    PutKeepsShape(q, max, id, value, now, ttl, id);
  }

  /** A set leaves the live entries of other ids, less the oldest if there is no room, and then the new one. */
  lemma SetKeepsLiveOthers(q: seq<Item<string>>, max: nat, id: string, value: string, before: int, now: int, ttl: int)
    requires Ordered(q, max, before, ttl) && before <= now && max > 0
    ensures var others := Without(Live(q, now), id);
      && |others| <= max
      && Put(q, max, id, value, now, ttl)
         == (if |others| < max then others else others[1..]) + [Item(id, value, now + ttl)]
  {
    OrderedPurgeIsExact(q, now, now + ttl);
    var others := Without(Live(q, now), id);
    WithoutIsNoLonger(Live(q, now), id);
    assert Evicted(others, max) == if |others| < max then others else others[1..];
  }

  datatype Op = SetOp(id: string, value: string, now: int) | GetOp(id: string, clear: bool, now: int)

  function Step(q: seq<Item<string>>, max: nat, ttl: int, op: Op): seq<Item<string>>
    requires max > 0
  {
    match op
    case SetOp(id, value, now) => Put(q, max, id, value, now, ttl)
    case GetOp(id, clear, now) => Read(q, id, clear, now).1
  }

  function Run(max: nat, ttl: int, ops: seq<Op>): seq<Item<string>>
    requires max > 0
  {
    if ops == [] then [] else Step(Run(max, ttl, ops[..|ops| - 1]), max, ttl, ops[|ops| - 1])
  }

  /** After every run the list is in expiry order, within capacity, one entry an id, and nothing outlives a full ttl. */
  lemma {:induction false} RunsStayOrdered(max: nat, ttl: int, ops: seq<Op>, now: int)
    requires max > 0 && forall i, j :: 0 <= i <= j < |ops| ==> ops[i].now <= ops[j].now
    requires forall i :: 0 <= i < |ops| ==> ops[i].now <= now
    ensures Ordered(Run(max, ttl, ops), max, now, ttl)
  {
    if ops != [] {
      var front, op := ops[..|ops| - 1], ops[|ops| - 1];
      RunsStayOrdered(max, ttl, front, op.now);
      var q := Run(max, ttl, front);
      match op {
        case SetOp(id, value, t) =>
          SetStaysOrdered(q, max, id, value, t, t, ttl);
        case GetOp(id, _, t) =>
          WithoutDistinct(q, id);
          WithoutIsNoLonger(q, id);
          WithoutByExpiry(q, id, 0, t + ttl);
      }
      NotAfterLater(Run(max, ttl, ops), op.now + ttl, now + ttl);
    }
  }

  /** A value that was set reads back exactly until its expiry, as often as it is read without clearing; then it is gone. */
  lemma ReadAfterSet(q: seq<Item<string>>, max: nat, id: string, value: string, t: int, ttl: int, clear: bool, now: int)
    requires DistinctIds(q) && max > 0
    ensures var q' := Put(q, max, id, value, t, ttl);
      && Read(q', id, clear, now).0 == (if now <= t + ttl then value else "")
      && (!clear && now <= t + ttl ==> Read(q', id, clear, now).1 == q')
      && (clear || now > t + ttl ==> OnlyLost(q', id, Read(q', id, clear, now).1))
  {
    PutKeepsShape(q, max, id, value, t, ttl, id);
    ReadIsRight(Put(q, max, id, value, t, ttl), id, clear, now);
  }
}
