/**
 The bounded replay cache (saml/replay.go): a map from assertion id to expiry,
 swept only when full, that never evicts a record still valid.
 */
module ReplayCache {
  import opened Common

  const DEFAULT_CAPACITY := 65536

  type Records = map<string, int>

  datatype CacheError = CacheFull

  /** What one call decides: the empty id is answered without being recorded. */
  datatype Outcome = Ignored | Seen | Admitted | Refused

  function Live(items: Records, now: int): Records {
    map id | id in items && now < items[id] :: items[id]
  }

  /** Expired records are dropped only when the cache is at capacity. */
  function Swept(items: Records, capacity: nat, now: int): Records {
    if |items| < capacity then items else Live(items, now)
  }

  function Decide(items: Records, capacity: nat, id: string, expiresAt: int, now: int): (Outcome, Records) {
    if id == "" then (Ignored, items)
    else if id in items && now < items[id] then (Seen, items)
    else
      var swept := Swept(items, capacity, now);
      if |swept| >= capacity then (Refused, swept) else (Admitted, swept[id := expiresAt])
  }

  class MemoryReplayCache {
    const capacity: nat
    var items: Records

    ghost predicate Valid()
      reads this
    {
      capacity > 0 && |items| <= capacity
    }

    constructor (capacity: int)
      ensures Valid() && items == map[]
      ensures this.capacity == if capacity <= 0 then DEFAULT_CAPACITY else capacity
    {
      this.capacity := if capacity <= 0 then DEFAULT_CAPACITY else capacity;
      items := map[];
    }

    method SweepExpired(now: int)
      modifies this
      ensures items == Swept(old(items), capacity, now)
    {
      if |items| < capacity {
        return;
      }
      var keys := items.Keys;
      while keys != {}
        invariant keys <= items.Keys <= old(items).Keys
        invariant forall id :: id in items ==> items[id] == old(items)[id]
        invariant forall id :: id in old(items) && id !in keys ==> (id in items <==> now < old(items)[id])
        decreases keys
      {
        var id :| id in keys;
        keys := keys - {id};
        if !(now < items[id]) {
          items := items - {id};
        }
      }
    }

    method SeenOrAdd(id: string, expiresAt: int, now: int) returns (r: Result<bool, CacheError>)
      requires Valid()
      modifies this
      ensures Valid()
      ensures items == Decide(old(items), capacity, id, expiresAt, now).1
      ensures r == match Decide(old(items), capacity, id, expiresAt, now).0
                   case Seen => Ok(true)
                   case Refused => Err(CacheFull)
                   case _ => Ok(false)
    {
      CapacityKept(items, capacity, id, expiresAt, now);
      if id == "" {
        return Ok(false);
      }
      if id in items {
        if now < items[id] {
          return Ok(true);
        }
      }
      SweepExpired(now);
      if |items| >= capacity {
        return Err(CacheFull);
      }
      items := items[id := expiresAt];
      return Ok(false);
    }
  }

  lemma SubmapIsNoLarger(a: Records, b: Records)
    requires a.Keys <= b.Keys
    ensures |a| <= |b|
    ensures |a| == |b| ==> a.Keys == b.Keys
  {
    var extra := b.Keys - a.Keys;
    assert b.Keys == a.Keys + extra;
    assert |b.Keys| == |a.Keys| + |extra|;
  }

  lemma CapacityKept(items: Records, capacity: nat, id: string, expiresAt: int, now: int)
    requires |items| <= capacity
    ensures |Decide(items, capacity, id, expiresAt, now).1| <= capacity
  {
    SubmapIsNoLarger(Live(items, now), items);
  }

  /** Full means exactly: the cache holds `capacity` records, all valid, none of them this id's. */
  lemma RefusedExactlyWhenFullOfOthers(items: Records, capacity: nat, id: string, expiresAt: int, now: int)
    requires |items| <= capacity
    ensures Decide(items, capacity, id, expiresAt, now).0 == Refused
       <==> id != "" && |items| == capacity && id !in items && forall k :: k in items ==> now < items[k]
  {
    SubmapIsNoLarger(Live(items, now), items);
    if |items| == capacity && forall k :: k in items ==> now < items[k] {
      assert Live(items, now) == items;
    }
  }

  // ---------- Sequences of calls ----------

  datatype Call = Call(id: string, expiresAt: int, now: int)

  function After(capacity: nat, calls: seq<Call>): Records {
    if calls == [] then map[]
    else
      var c := calls[|calls| - 1];
      Decide(After(capacity, calls[..|calls| - 1]), capacity, c.id, c.expiresAt, c.now).1
  }

  function OutcomeAt(capacity: nat, calls: seq<Call>, i: nat): Outcome
    requires i < |calls|
  {
    Decide(After(capacity, calls[..i]), capacity, calls[i].id, calls[i].expiresAt, calls[i].now).0
  }

  /** The bound holds after every sequence of calls, whatever times they carry. */
  lemma {:induction false} AlwaysWithinCapacity(capacity: nat, calls: seq<Call>)
    ensures |After(capacity, calls)| <= capacity
  {
    if calls != [] {
      var front, c := calls[..|calls| - 1], calls[|calls| - 1];
      AlwaysWithinCapacity(capacity, front);
      CapacityKept(After(capacity, front), capacity, c.id, c.expiresAt, c.now);
    }
  }

  /** A record stays, with its expiry, until a call carries a time that reaches the expiry. */
  lemma {:induction false} RecordStays(capacity: nat, calls: seq<Call>, i: nat, j: nat)
    requires i < j <= |calls| && OutcomeAt(capacity, calls, i) == Admitted
    requires forall k :: i < k < j ==> calls[k].now < calls[i].expiresAt
    ensures var items := After(capacity, calls[..j]);
      calls[i].id in items && items[calls[i].id] == calls[i].expiresAt
    decreases j
  {
    assert calls[..j][..j - 1] == calls[..j - 1];
    if j > i + 1 {
      RecordStays(capacity, calls, i, j - 1);
    }
  }

  /** Call `k` sweeps, at a time that has reached `expiry`: it is neither ignored nor answered "seen", and the cache is full. */
  predicate Sweeps(capacity: nat, calls: seq<Call>, k: nat, expiry: int)
    requires k < |calls|
  {
    && calls[k].id != "" && OutcomeAt(capacity, calls, k) != Seen
    && |After(capacity, calls[..k])| >= capacity && calls[k].now >= expiry
  }

  /** Nobody admits the id of call `i` again before call `j`. */
  predicate NotReadmitted(capacity: nat, calls: seq<Call>, i: nat, j: nat)
    requires i < j <= |calls|
  {
    forall k :: i < k < j && calls[k].id == calls[i].id ==> OutcomeAt(capacity, calls, k) != Admitted
  }

  lemma RecordAfterCall(capacity: nat, calls: seq<Call>, id: string, k: nat)
    requires k < |calls| && (calls[k].id == id ==> OutcomeAt(capacity, calls, k) != Admitted)
    ensures var (before, after) := (After(capacity, calls[..k]), After(capacity, calls[..k + 1]));
      && (id in after <==> id in before && !Sweeps(capacity, calls, k, before[id]))
      && (id in after ==> after[id] == before[id])
  {
    assert calls[..k + 1][..k] == calls[..k];
  }

  lemma AdmittedIsThere(capacity: nat, calls: seq<Call>, i: nat)
    requires i < |calls| && OutcomeAt(capacity, calls, i) == Admitted
    ensures calls[i].id in After(capacity, calls[..i + 1])
    ensures After(capacity, calls[..i + 1])[calls[i].id] == calls[i].expiresAt
  {
    assert calls[..i + 1][..i] == calls[..i];
  }

  lemma NotReadmittedBefore(capacity: nat, calls: seq<Call>, i: nat, j: nat)
    requires i + 1 < j <= |calls| && NotReadmitted(capacity, calls, i, j)
    ensures NotReadmitted(capacity, calls, i, j - 1)
    ensures calls[j - 1].id == calls[i].id ==> OutcomeAt(capacity, calls, j - 1) != Admitted
  {
  }

  /** No call between `i` and `j` sweeps at a time that has reached the expiry of call `i`. */
  predicate Unswept(capacity: nat, calls: seq<Call>, i: nat, j: nat)
    requires i < j <= |calls|
  {
    forall k :: i < k < j ==> !Sweeps(capacity, calls, k, calls[i].expiresAt)
  }

  lemma UnsweptOneMore(capacity: nat, calls: seq<Call>, i: nat, j: nat)
    requires i + 1 < j <= |calls|
    ensures Unswept(capacity, calls, i, j)
       <==> Unswept(capacity, calls, i, j - 1) && !Sweeps(capacity, calls, j - 1, calls[i].expiresAt)
  {
  }

  /** Whatever the times, an admitted record is there until the first such sweep, and not after it. */
  lemma {:induction false} RecordStaysExactly(capacity: nat, calls: seq<Call>, i: nat, j: nat)
    requires i < j <= |calls| && OutcomeAt(capacity, calls, i) == Admitted && NotReadmitted(capacity, calls, i, j)
    ensures var items := After(capacity, calls[..j]);
      && (calls[i].id in items <==> Unswept(capacity, calls, i, j))
      && (calls[i].id in items ==> items[calls[i].id] == calls[i].expiresAt)
    decreases j
  {
    if j == i + 1 {
      AdmittedIsThere(capacity, calls, i);
    } else {
      NotReadmittedBefore(capacity, calls, i, j);
      RecordStaysExactly(capacity, calls, i, j - 1);
      UnsweptOneMore(capacity, calls, i, j);
      RecordAfterCall(capacity, calls, calls[i].id, j - 1);
    }
  }

  /**
   What a later call for an admitted id is answered, exactly, whatever the times. It is "seen" when its
   own time is before the expiry and no call in between swept at a time that had reached it;
   otherwise it is admitted unless the cache is full of live records.
   */
  lemma StaleReadmissionExactlyWhen(capacity: nat, calls: seq<Call>, i: nat, j: nat)
    requires i < j < |calls| && calls[i].id == calls[j].id
    requires OutcomeAt(capacity, calls, i) == Admitted && NotReadmitted(capacity, calls, i, j)
    ensures var remembered := calls[j].now < calls[i].expiresAt && Unswept(capacity, calls, i, j);
      var items := After(capacity, calls[..j]);
      && (OutcomeAt(capacity, calls, j) == Seen <==> remembered)
      && (OutcomeAt(capacity, calls, j) == Admitted <==>
           !remembered && !(|items| == capacity && forall x :: x in items ==> calls[j].now < items[x]))
  {
    RecordStaysExactly(capacity, calls, i, j);
    AlwaysWithinCapacity(capacity, calls[..j]);
    var c := calls[j];
    RefusedExactlyWhenFullOfOthers(After(capacity, calls[..j]), capacity, c.id, c.expiresAt, c.now);
  }

  /** Whatever order the times arrive in: readmitting an id takes some later call that reached its expiry. */
  lemma ReadmissionNeedsExpiry(capacity: nat, calls: seq<Call>, i: nat, j: nat)
    requires i < j < |calls| && calls[i].id == calls[j].id
    requires OutcomeAt(capacity, calls, i) == Admitted && OutcomeAt(capacity, calls, j) == Admitted
    ensures exists k :: i < k <= j && calls[k].now >= calls[i].expiresAt
  {
    if forall k :: i < k < j ==> calls[k].now < calls[i].expiresAt {
      RecordStays(capacity, calls, i, j);
    }
  }

  /** With times in order, the readmitting call itself reached the earlier expiry. */
  lemma OrderedReadmission(capacity: nat, calls: seq<Call>, i: nat, j: nat)
    requires i < j < |calls| && calls[i].id == calls[j].id
    requires OutcomeAt(capacity, calls, i) == Admitted && OutcomeAt(capacity, calls, j) == Admitted
    requires forall k, l :: 0 <= k <= l < |calls| ==> calls[k].now <= calls[l].now
    ensures calls[j].now >= calls[i].expiresAt
  {
    ReadmissionNeedsExpiry(capacity, calls, i, j);
  }

  /**
   Without that order the last claim is false: a sweep at a later time can drop
   the record, and a call carrying an earlier time then readmits the id.
   */
  lemma StaleTimeReadmits()
    ensures exists calls: seq<Call> :: |calls| == 3 && calls[0].id == calls[2].id
              && OutcomeAt(1, calls, 0) == Admitted && OutcomeAt(1, calls, 2) == Admitted
              && calls[2].now < calls[0].expiresAt
  {
    var calls := [Call("a", 10, 0), Call("b", 5, 10), Call("a", 20, 9)];
    var first := map["a" := 10];
    assert calls[..0] == [] && calls[..1][..0] == [] && calls[..2][..1] == calls[..1];
    assert After(1, calls[..1]) == first;
    assert Live(first, 10) == map[];
    assert After(1, calls[..2]) == map["b" := 5];
    assert Live(map["b" := 5], 9) == map[];
  }
}
