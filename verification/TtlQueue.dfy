/**
 A bounded store with one time-to-live, as a pure first-in-first-out queue, and
 as the map plus linked list that captcha/store.go and passkey/session_store.go
 keep. Front is oldest; an item is expired once now is after its expiry.
 */
module TtlQueue {
  import opened Common

  // ---------- The queue ----------

  datatype Item<V> = Item(id: string, value: V, expires: int)

  function PurgeFront<V>(q: seq<Item<V>>, now: int): seq<Item<V>> {
    if q != [] && now > q[0].expires then PurgeFront(q[1..], now) else q
  }

  function Without<V>(q: seq<Item<V>>, id: string): seq<Item<V>> {
    if q == [] then []
    else if q[0].id == id then Without(q[1..], id)
    else [q[0]] + Without(q[1..], id)
  }

  /** The oldest items go until fewer than `max` are left. */
  function Evicted<V>(q: seq<Item<V>>, max: nat): (r: seq<Item<V>>)
    requires max > 0
    ensures |r| == if |q| < max then |q| else max - 1
  {
    if |q| < max then q else Evicted(q[1..], max)
  }

  /** What a put keeps before it appends. */
  function Kept<V>(q: seq<Item<V>>, max: nat, id: string, now: int): seq<Item<V>>
    requires max > 0
  {
    Evicted(Without(PurgeFront(q, now), id), max)
  }

  function Put<V>(q: seq<Item<V>>, max: nat, id: string, value: V, now: int, ttl: int): seq<Item<V>>
    requires max > 0
  {
    Kept(q, max, id, now) + [Item(id, value, now + ttl)]
  }

  function Find<V>(q: seq<Item<V>>, id: string): Option<Item<V>> {
    if q == [] then None else if q[0].id == id then Some(q[0]) else Find(q[1..], id)
  }

  /** The items not expired, in order. */
  function Live<V>(q: seq<Item<V>>, now: int): seq<Item<V>> {
    if q == [] then []
    else if now > q[0].expires then Live(q[1..], now)
    else [q[0]] + Live(q[1..], now)
  }

  predicate DistinctIds<V>(q: seq<Item<V>>) {
    q == [] || (Find(q[1..], q[0].id).None? && DistinctIds(q[1..]))
  }

  /** Every item expires at `e` or later. */
  predicate NotBefore<V>(q: seq<Item<V>>, e: int) {
    q == [] || (e <= q[0].expires && NotBefore(q[1..], e))
  }

  predicate NotAfter<V>(q: seq<Item<V>>, e: int) {
    q == [] || (q[0].expires <= e && NotAfter(q[1..], e))
  }

  predicate ByExpiry<V>(q: seq<Item<V>>) {
    q == [] || (NotBefore(q[1..], q[0].expires) && ByExpiry(q[1..]))
  }

  // ---------- Facts about single operations ----------

  lemma {:induction false} FindWithout<V>(q: seq<Item<V>>, id: string, x: string)
    ensures Find(Without(q, id), x) == if x == id then None else Find(q, x)
  {
    if q != [] {
      FindWithout(q[1..], id, x);
      assert q[0].id != id ==> Without(q, id)[1..] == Without(q[1..], id);
    }
  }

  /** `r` is `q` without the one item of this id, all others in their order. */
  ghost predicate CutOut<V>(q: seq<Item<V>>, id: string, r: seq<Item<V>>) {
    exists i :: 0 <= i < |q| && q[i].id == id && r == q[..i] + q[i + 1..]
  }

  lemma CutBehind<V>(q: seq<Item<V>>, i: nat)
    requires i + 1 < |q|
    ensures [q[0]] + (q[1..][..i] + q[1..][i + 1..]) == q[..i + 1] + q[i + 1 + 1..]
  {
  }

  lemma {:induction false} WithoutCutsOut<V>(q: seq<Item<V>>, id: string)
    requires DistinctIds(q) && Find(q, id).Some?
    ensures CutOut(q, id, Without(q, id))
  {
    if q[0].id == id {
      WithoutAbsent(q[1..], id);
      assert Without(q, id) == q[..0] + q[0 + 1..];
    } else {
      WithoutCutsOut(q[1..], id);
      var i :| 0 <= i < |q[1..]| && q[1..][i].id == id && Without(q[1..], id) == q[1..][..i] + q[1..][i + 1..];
      CutBehind(q, i);
      assert q[i + 1].id == id;
    }
  }

  /** What taking out the item of an id, if there is one, means without naming how: only that id is gone. */
  ghost predicate OnlyLost<V>(q: seq<Item<V>>, id: string, r: seq<Item<V>>) {
    && Find(r, id).None?
    && (forall x :: x != id ==> Find(r, x) == Find(q, x))
    && (if Find(q, id).Some? then CutOut(q, id, r) else r == q)
  }

  lemma WithoutLosesOnly<V>(q: seq<Item<V>>, id: string)
    requires DistinctIds(q)
    ensures OnlyLost(q, id, Without(q, id))
  {
    forall x ensures Find(Without(q, id), x) == if x == id then None else Find(q, x) {
      FindWithout(q, id, x);
    }
    if Find(q, id).Some? {
      WithoutCutsOut(q, id);
    } else {
      WithoutAbsent(q, id);
    }
  }

  lemma {:induction false} WithoutIsNoLonger<V>(q: seq<Item<V>>, id: string)
    ensures |Without(q, id)| <= |q|
  {
    if q != [] {
      WithoutIsNoLonger(q[1..], id);
    }
  }

  lemma {:induction false} WithoutAbsent<V>(q: seq<Item<V>>, id: string)
    requires Find(q, id).None?
    ensures Without(q, id) == q
  {
    if q != [] {
      WithoutAbsent(q[1..], id);
      assert q == [q[0]] + q[1..];
    }
  }

  lemma {:induction false} FindAppended<V>(q: seq<Item<V>>, item: Item<V>, x: string)
    ensures Find(q + [item], x)
         == if Find(q, x).Some? then Find(q, x) else if item.id == x then Some(item) else None
  {
    if q == [] {
      assert q + [item] == [item];
    } else {
      assert (q + [item])[1..] == q[1..] + [item];
      FindAppended(q[1..], item, x);
    }
  }

  /** What is found after dropping from the front was found before. */
  lemma {:induction false} FindPurged<V>(q: seq<Item<V>>, now: int, x: string)
    requires DistinctIds(q)
    ensures Find(PurgeFront(q, now), x).Some? ==> Find(PurgeFront(q, now), x) == Find(q, x)
    ensures DistinctIds(PurgeFront(q, now))
  {
    if q != [] && now > q[0].expires {
      FindPurged(q[1..], now, x);
    }
  }

  lemma {:induction false} FindEvicted<V>(q: seq<Item<V>>, max: nat, x: string)
    requires DistinctIds(q) && max > 0
    ensures Find(Evicted(q, max), x).Some? ==> Find(Evicted(q, max), x) == Find(q, x)
    ensures DistinctIds(Evicted(q, max))
  {
    if |q| >= max {
      FindEvicted(q[1..], max, x);
    }
  }

  lemma {:induction false} WithoutDistinct<V>(q: seq<Item<V>>, id: string)
    requires DistinctIds(q)
    ensures DistinctIds(Without(q, id))
  {
    if q != [] {
      WithoutDistinct(q[1..], id);
      FindWithout(q[1..], id, q[0].id);
      assert q[0].id != id ==> Without(q, id)[1..] == Without(q[1..], id);
    }
  }

  lemma {:induction false} AppendedDistinct<V>(q: seq<Item<V>>, item: Item<V>)
    requires DistinctIds(q) && Find(q, item.id).None?
    ensures DistinctIds(q + [item])
  {
    if q == [] {
      assert q + [item] == [item] && [item][1..] == [];
    } else {
      assert (q + [item])[1..] == q[1..] + [item];
      AppendedDistinct(q[1..], item);
      FindAppended(q[1..], item, q[0].id);
    }
  }

  lemma {:induction false} KeptShape<V>(q: seq<Item<V>>, max: nat, id: string, now: int, x: string)
    requires DistinctIds(q) && max > 0
    ensures DistinctIds(Kept(q, max, id, now)) && |Kept(q, max, id, now)| < max
    ensures Find(Kept(q, max, id, now), x).Some? ==> x != id && Find(Kept(q, max, id, now), x) == Find(q, x)
  {
    FindPurged(q, now, x);
    WithoutDistinct(PurgeFront(q, now), id);
    FindWithout(PurgeFront(q, now), id, x);
    FindEvicted(Without(PurgeFront(q, now), id), max, x);
  }

  /**
   Whatever the times, a put keeps ids distinct and stays within the bound; what is
   found under any id afterwards is the new item or was there before, unchanged.
   */
  lemma PutKeepsShape<V>(q: seq<Item<V>>, max: nat, id: string, value: V, now: int, ttl: int, x: string)
    requires DistinctIds(q) && max > 0
    ensures var q' := Put(q, max, id, value, now, ttl);
      && DistinctIds(q') && 0 < |q'| <= max
      && Find(q', id) == Some(Item(id, value, now + ttl))
      && (x != id && Find(q', x).Some? ==> Find(q', x) == Find(q, x))
  {
    var kept, item := Kept(q, max, id, now), Item(id, value, now + ttl);
    KeptShape(q, max, id, now, id);
    KeptShape(q, max, id, now, x);
    AppendedDistinct(kept, item);
    FindAppended(kept, item, id);
    FindAppended(kept, item, x);
  }

  // ---------- Expiry order ----------

  lemma {:induction false} WithoutByExpiry<V>(q: seq<Item<V>>, id: string, lo: int, hi: int)
    ensures ByExpiry(q) ==> ByExpiry(Without(q, id))
    ensures NotBefore(q, lo) ==> NotBefore(Without(q, id), lo)
    ensures NotAfter(q, hi) ==> NotAfter(Without(q, id), hi)
  {
    if q != [] {
      WithoutByExpiry(q[1..], id, lo, hi);
      WithoutByExpiry(q[1..], id, q[0].expires, hi);
      assert q[0].id != id ==> Without(q, id)[1..] == Without(q[1..], id);
    }
  }

  lemma {:induction false} AppendedByExpiry<V>(q: seq<Item<V>>, item: Item<V>, lo: int)
    requires NotAfter(q, item.expires)
    ensures ByExpiry(q) ==> ByExpiry(q + [item])
    ensures NotBefore(q, lo) && lo <= item.expires ==> NotBefore(q + [item], lo)
    ensures NotAfter(q + [item], item.expires)
  {
    if q == [] {
      assert q + [item] == [item] && [item][1..] == [];
    } else {
      assert (q + [item])[1..] == q[1..] + [item];
      AppendedByExpiry(q[1..], item, lo);
      AppendedByExpiry(q[1..], item, q[0].expires);
    }
  }

  lemma {:induction false} EvictedByExpiry<V>(q: seq<Item<V>>, max: nat, hi: int)
    requires max > 0
    ensures ByExpiry(q) ==> ByExpiry(Evicted(q, max))
    ensures NotAfter(q, hi) ==> NotAfter(Evicted(q, max), hi)
  {
    if |q| >= max {
      EvictedByExpiry(q[1..], max, hi);
    }
  }

  lemma {:induction false} NotAfterLater<V>(q: seq<Item<V>>, e: int, later: int)
    requires NotAfter(q, e) && e <= later
    ensures NotAfter(q, later)
  {
    if q != [] {
      NotAfterLater(q[1..], e, later);
    }
  }

  /** In expiry order, purging from the front leaves exactly the live items. */
  lemma {:induction false} OrderedPurgeIsExact<V>(q: seq<Item<V>>, now: int, hi: int)
    requires ByExpiry(q)
    ensures PurgeFront(q, now) == Live(q, now) && ByExpiry(Live(q, now))
    ensures NotAfter(q, hi) ==> NotAfter(Live(q, now), hi)
    ensures |Live(q, now)| <= |q|
  {
    if q != [] {
      if now > q[0].expires {
        OrderedPurgeIsExact(q[1..], now, hi);
      } else {
        NotBeforeIsLive(q[1..], q[0].expires, now);
        assert q == [q[0]] + q[1..];
      }
    }
  }

  lemma {:induction false} NotBeforeIsLive<V>(q: seq<Item<V>>, e: int, now: int)
    requires NotBefore(q, e) && now <= e
    ensures Live(q, now) == q
  {
    if q != [] {
      NotBeforeIsLive(q[1..], e, now);
      assert q == [q[0]] + q[1..];
    }
  }

  /** A put in clock order keeps expiry order. */
  lemma PutByExpiry<V>(q: seq<Item<V>>, max: nat, id: string, value: V, now: int, ttl: int)
    requires ByExpiry(q) && NotAfter(q, now + ttl) && max > 0
    ensures ByExpiry(Put(q, max, id, value, now, ttl)) && NotAfter(Put(q, max, id, value, now, ttl), now + ttl)
  {
    OrderedPurgeIsExact(q, now, now + ttl);
    WithoutByExpiry(PurgeFront(q, now), id, 0, now + ttl);
    EvictedByExpiry(Without(PurgeFront(q, now), id), max, now + ttl);
    AppendedByExpiry(Kept(q, max, id, now), Item(id, value, now + ttl), 0);
  }

  /** Without that order, it does so precisely when nothing expired stands behind something live. */
  lemma {:induction false} PurgeIsExactWhen<V>(q: seq<Item<V>>, now: int)
    ensures PurgeFront(q, now) == Live(q, now)
       <==> forall i, j :: 0 <= i < j < |q| && now <= q[i].expires ==> now <= q[j].expires
  {
    if q == [] {
    } else if now > q[0].expires {
      PurgeIsExactWhen(q[1..], now);
      assert forall i :: 0 <= i < |q[1..]| ==> q[1..][i] == q[i + 1];
      assert forall i :: 1 <= i < |q| ==> q[i] == q[1..][i - 1];
    } else {
      LiveIsAllWhen(q, now);
    }
  }

  lemma {:induction false} LiveIsAllWhen<V>(q: seq<Item<V>>, now: int)
    ensures |Live(q, now)| <= |q|
    ensures Live(q, now) == q <==> forall j :: 0 <= j < |q| ==> now <= q[j].expires
  {
    if q != [] {
      LiveIsAllWhen(q[1..], now);
      assert q == [q[0]] + q[1..];
      assert forall i :: 0 <= i < |q[1..]| ==> q[1..][i] == q[i + 1];
      assert forall i :: 1 <= i < |q| ==> q[i] == q[1..][i - 1];
    }
  }

  lemma {:induction false} NotBeforePairwise<V>(q: seq<Item<V>>, e: int)
    ensures NotBefore(q, e) <==> forall j :: 0 <= j < |q| ==> e <= q[j].expires
  {
    if q != [] {
      NotBeforePairwise(q[1..], e);
      assert forall j :: 1 <= j < |q| ==> q[j] == q[1..][j - 1];
    }
  }

  lemma {:induction false} ByExpiryPairwise<V>(q: seq<Item<V>>)
    ensures ByExpiry(q) <==> forall i, j :: 0 <= i < j < |q| ==> q[i].expires <= q[j].expires
  {
    if q != [] {
      ByExpiryPairwise(q[1..]);
      NotBeforePairwise(q[1..], q[0].expires);
      assert forall j :: 1 <= j < |q| ==> q[j] == q[1..][j - 1];
      assert forall j :: 0 <= j < |q| - 1 ==> q[1..][j] == q[j + 1];
    }
  }

  /** The purge is exact at every time precisely when the list is in expiry order. */
  lemma PurgesExactlyWhenOrdered<V>(q: seq<Item<V>>)
    ensures (forall now :: PurgeFront(q, now) == Live(q, now)) <==> ByExpiry(q)
  {
    ByExpiryPairwise(q);
    if ByExpiry(q) {
      forall now ensures PurgeFront(q, now) == Live(q, now) {
        OrderedPurgeIsExact(q, now, 0);
      }
    } else {
      var i, j :| 0 <= i < j < |q| && q[i].expires > q[j].expires;
      PurgeIsExactWhen(q, q[j].expires + 1);
    }
  }

  // ---------- The map and the linked list ----------

  /** A list node; nodes are numbered as they are created. */
  datatype Node = Node(serial: nat, id: string)

  /** A map entry, with the list node that belongs to it. */
  datatype Entry<V> = Entry(value: V, expires: int, elem: nat)

  /** The list is in order of creation, numbered from `lo` up to `hi`, and each node is the one its entry points at. */
  ghost predicate Chained<V>(items: map<string, Entry<V>>, order: seq<Node>, lo: nat, hi: nat) {
    order == [] ||
    (lo <= order[0].serial < hi && order[0].id in items && items[order[0].id].elem == order[0].serial
     && Chained(items, order[1..], order[0].serial + 1, hi))
  }

  function Ids(order: seq<Node>): set<string> {
    if order == [] then {} else {order[0].id} + Ids(order[1..])
  }

  /** Map and list are in bijection. */
  ghost predicate Linked<V>(items: map<string, Entry<V>>, order: seq<Node>, created: nat) {
    |items| == |order| && Chained(items, order, 0, created) && items.Keys == Ids(order)
  }

  function View<V>(items: map<string, Entry<V>>, order: seq<Node>): (q: seq<Item<V>>)
    requires Ids(order) <= items.Keys
    ensures |q| == |order|
  {
    if order == [] then []
    else
      var id := order[0].id;
      [Item(id, items[id].value, items[id].expires)] + View(items, order[1..])
  }

  /** The list without the node of this number. */
  function Unlinked(order: seq<Node>, serial: nat): seq<Node> {
    if order == [] then []
    else if order[0].serial == serial then order[1..]
    else [order[0]] + Unlinked(order[1..], serial)
  }

  /** An entry whose node came earlier has no node here. */
  lemma {:induction false} NoEarlierNode<V>(items: map<string, Entry<V>>, order: seq<Node>, lo: nat, hi: nat, id: string)
    requires Chained(items, order, lo, hi) && id in items && items[id].elem < lo
    ensures id !in Ids(order)
  {
    if order != [] {
      NoEarlierNode(items, order[1..], order[0].serial + 1, hi, id);
    }
  }

  lemma {:induction false} ChainedIds<V>(items: map<string, Entry<V>>, order: seq<Node>, lo: nat, hi: nat, lo': nat)
    requires Chained(items, order, lo, hi)
    ensures Ids(order) <= items.Keys
    ensures lo' <= lo ==> Chained(items, order, lo', hi)
  {
    if order != [] {
      ChainedIds(items, order[1..], order[0].serial + 1, hi, 0);
    }
  }

  lemma {:induction false} FindInView<V>(items: map<string, Entry<V>>, order: seq<Node>, id: string)
    requires Ids(order) <= items.Keys
    ensures Find(View(items, order), id)
         == if id in Ids(order) then Some(Item(id, items[id].value, items[id].expires)) else None
  {
    if order != [] {
      FindInView(items, order[1..], id);
    }
  }

  lemma {:induction false} ViewIsDistinct<V>(items: map<string, Entry<V>>, order: seq<Node>, lo: nat, hi: nat)
    requires Chained(items, order, lo, hi) && Ids(order) <= items.Keys
    ensures DistinctIds(View(items, order))
  {
    if order != [] {
      ViewIsDistinct(items, order[1..], order[0].serial + 1, hi);
      NoEarlierNode(items, order[1..], order[0].serial + 1, hi, order[0].id);
      FindInView(items, order[1..], order[0].id);
    }
  }

  /** Only the entries of the nodes in the list matter. */
  lemma {:induction false} FrameChain<V>(items: map<string, Entry<V>>, items': map<string, Entry<V>>, order: seq<Node>, lo: nat, hi: nat)
    requires Chained(items, order, lo, hi) && Ids(order) <= items.Keys
    requires forall id :: id in Ids(order) ==> id in items' && items'[id] == items[id]
    ensures Chained(items', order, lo, hi) && Ids(order) <= items'.Keys
    ensures View(items', order) == View(items, order)
  {
    if order != [] {
      FrameChain(items, items', order[1..], order[0].serial + 1, hi);
    }
  }

  /** Removing an entry and its node removes that item from the queue. */
  lemma {:induction false} RemoveNode<V>(items: map<string, Entry<V>>, order: seq<Node>, lo: nat, hi: nat, id: string)
    requires Chained(items, order, lo, hi) && Ids(order) <= items.Keys && id in Ids(order)
    ensures var items', order' := items - {id}, Unlinked(order, items[id].elem);
      && Chained(items', order', lo, hi) && Ids(order') == Ids(order) - {id} && |order'| == |order| - 1
      && Ids(order') <= items'.Keys
      && View(items', order') == Without(View(items, order), id)
  {
    var first, rest := order[0], order[1..];
    var items' := items - {id};
    ChainedIds(items, rest, first.serial + 1, hi, lo);
    NoEarlierNode(items, rest, first.serial + 1, hi, first.id);
    if first.id == id {
      FrameChain(items, items', rest, first.serial + 1, hi);
      ChainedIds(items', rest, first.serial + 1, hi, lo);
      FindInView(items, rest, id);
      WithoutAbsent(View(items, rest), id);
    } else {
      LaterNode(items, rest, first.serial + 1, hi, id);
      RemoveNode(items, rest, first.serial + 1, hi, id);
      var order' := Unlinked(order, items[id].elem);
      assert order'[0] == first && order'[1..] == Unlinked(rest, items[id].elem);
    }
  }

  lemma {:induction false} LaterNode<V>(items: map<string, Entry<V>>, order: seq<Node>, lo: nat, hi: nat, id: string)
    requires Chained(items, order, lo, hi) && id in Ids(order)
    ensures id in items && lo <= items[id].elem < hi
  {
    if order[0].id != id {
      LaterNode(items, order[1..], order[0].serial + 1, hi, id);
    }
  }

  lemma {:induction false} AppendNode<V>(items: map<string, Entry<V>>, order: seq<Node>, lo: nat, hi: nat, node: Node)
    requires Chained(items, order, lo, hi) && lo <= hi && Ids(order) <= items.Keys
    requires node.serial == hi && node.id in items && items[node.id].elem == hi
    ensures Chained(items, order + [node], lo, hi + 1) && Ids(order + [node]) == Ids(order) + {node.id}
    ensures View(items, order + [node]) == View(items, order) + [Item(node.id, items[node.id].value, items[node.id].expires)]
  {
    if order == [] {
      assert order + [node] == [node] && [node][1..] == [];
    } else {
      assert (order + [node])[1..] == order[1..] + [node];
      AppendNode(items, order[1..], order[0].serial + 1, hi, node);
    }
  }

  class MemoryStore<V> {
    const ttl: int
    const maxItems: nat
    var items: map<string, Entry<V>>
    var order: seq<Node>
    var created: nat

    ghost predicate Valid()
      reads this
    {
      ttl > 0 && maxItems > 0 && Linked(items, order, created) && |items| <= maxItems
    }

    ghost function Contents(): (q: seq<Item<V>>)
      requires Valid()
      reads this
      ensures DistinctIds(q) && |q| <= maxItems
    {
      ViewIsDistinct(items, order, 0, created);
      View(items, order)
    }

    constructor (maxItems: int, ttl: int, defaultItems: nat, defaultTTL: int)
      requires defaultItems > 0 && defaultTTL > 0
      ensures Valid() && Contents() == []
      ensures this.maxItems == if maxItems <= 0 then defaultItems else maxItems
      ensures this.ttl == if ttl <= 0 then defaultTTL else ttl
    {
      this.maxItems := if maxItems <= 0 then defaultItems else maxItems;
      this.ttl := if ttl <= 0 then defaultTTL else ttl;
      items, order, created := map[], [], 0;
    }

    /** What the map says is what the queue says. */
    lemma Lookup(id: string)
      requires Valid()
      ensures Find(Contents(), id)
           == if id in items then Some(Item(id, items[id].value, items[id].expires)) else None
      ensures id !in items ==> Without(Contents(), id) == Contents()
    {
      FindInView(items, order, id);
      if id !in items {
        WithoutAbsent(Contents(), id);
      }
    }

    /** Takes an entry's node out of the list, and the entry out of the map. */
    method Delete(id: string)
      requires Valid() && id in items
      modifies this
      ensures Valid() && Contents() == Without(old(Contents()), id)
      ensures id !in items && |items| == old(|items|) - 1
    {
      RemoveNode(items, order, 0, created, id);
      order := Unlinked(order, items[id].elem);
      items := items - {id};
    }

    /** Deletes the entry if there is one. */
    method DeleteOld(id: string)
      requires Valid()
      modifies this
      ensures Valid() && Contents() == Without(old(Contents()), id) && id !in items
    {
      Lookup(id);
      if id in items {
        Delete(id);
      }
    }

    /** Takes out the front node and its entry. */
    method DropFront()
      requires Valid() && order != []
      modifies this
      ensures Valid() && Contents() == old(Contents())[1..] && order == old(order)[1..]
      ensures |items| == old(|items|) - 1 && items.Keys <= old(items.Keys)
    {
      var front := order[0];
      ghost var q := Contents();
      RemoveNode(items, order, 0, created, front.id);
      WithoutAbsent(q[1..], front.id);
      order := order[1..];
      items := items - {front.id};
    }

    method PurgeExpired(now: int)
      requires Valid()
      modifies this
      ensures Valid() && Contents() == PurgeFront(old(Contents()), now) && items.Keys <= old(items.Keys)
    {
      while order != []
        invariant Valid() && items.Keys <= old(items.Keys)
        invariant PurgeFront(Contents(), now) == PurgeFront(old(Contents()), now)
        decreases |order|
      {
        var front := order[0];
        if front.id !in items || now > items[front.id].expires {
          DropFront();
        } else {
          return;
        }
      }
    }

    /** Makes room: the oldest go, expired or not. */
    method EvictOldest()
      requires Valid()
      modifies this
      ensures Valid() && |items| < maxItems && items.Keys <= old(items.Keys)
      ensures Contents() == Evicted(old(Contents()), maxItems)
    {
      while |items| >= maxItems
        invariant Valid() && items.Keys <= old(items.Keys)
        invariant Evicted(Contents(), maxItems) == Evicted(old(Contents()), maxItems)
        decreases |items|
      {
        if order == [] {
          break;
        }
        DropFront();
      }
    }

    method Append(id: string, value: V, expires: int)
      requires Valid() && id !in items && |items| < maxItems
      modifies this
      ensures Valid() && Contents() == old(Contents()) + [Item(id, value, expires)]
    {
      var node, next := Node(created, id), items[id := Entry(value, expires, created)];
      FrameChain(items, next, order, 0, created);
      AppendNode(next, order, 0, created, node);
      order := order + [node];
      items := next;
      created := created + 1;
    }
  }
}
