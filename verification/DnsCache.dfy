/** The 100-entry answer cache: a scanned array with a use clock, and the recency list it stands for. */
module DnsCache {
  import opened Bytes

  const CACHE_SIZE: nat := 100
  const TTL_US: int := 300_000_000
  const MAX_DATA: nat := 1500
  const CLOCK_MAX: int := TWO_32 - 1

  datatype Entry = Entry(valid: bool, key: u64, inserted: int, lastUsed: u32, data: bytes)

  /** An answer as the recency list sees it. */
  datatype Item = Item(key: u64, inserted: int, data: bytes)

  function ItemOf(e: Entry): Item { Item(e.key, e.inserted, e.data) }

  // ---- the recency list: most recently used first -------------------------------------------------

  function Position(list: seq<Item>, key: u64): (k: nat)
    ensures k <= |list|
    ensures k < |list| ==> list[k].key == key
    ensures forall j :: 0 <= j < k ==> list[j].key != key
  {
    if list == [] || list[0].key == key then 0 else 1 + Position(list[1..], key)
  }

  function Without<T>(s: seq<T>, k: nat): seq<T>
    requires k < |s|
  {
    s[..k] + s[k + 1..]
  }

  function MoveToFront<T>(s: seq<T>, k: nat): seq<T>
    requires k < |s|
  {
    [s[k]] + Without(s, k)
  }

  predicate Expired(item: Item, now: int) { now - item.inserted > TTL_US }

  /** Looking a key up moves it to the front, or deletes it when it is too old. */
  function FindInList(list: seq<Item>, key: u64, now: int): seq<Item> {
    var k := Position(list, key);
    if k == |list| then list else if Expired(list[k], now) then Without(list, k) else MoveToFront(list, k)
  }

  /** Inserting puts the answer in front and drops the least recently used one when the list is full. */
  function InsertInList(list: seq<Item>, item: Item): seq<Item> {
    if |list| < CACHE_SIZE then [item] + list else [item] + list[..CACHE_SIZE - 1]
  }

  /** The live answer for a key. */
  function LiveIn(list: seq<Item>, key: u64, now: int): Option<bytes> {
    var k := Position(list, key);
    if k < |list| && !Expired(list[k], now) then Some(list[k].data) else None
  }

  datatype Use = Lookup(key: u64, now: int) | Insertion(item: Item)

  function KeyOf(use: Use): u64 { if use.Lookup? then use.key else use.item.key }

  function Apply(list: seq<Item>, use: Use): seq<Item> {
    match use
    case Lookup(key, now) => FindInList(list, key, now)
    case Insertion(item) => InsertInList(list, item)
  }

  function Run(list: seq<Item>, uses: seq<Use>): seq<Item> {
    if uses == [] then list else Apply(Run(list, uses[..|uses| - 1]), uses[|uses| - 1])
  }

  lemma PositionIs(list: seq<Item>, key: u64, k: nat)
    requires k < |list| && list[k].key == key && forall j :: 0 <= j < k ==> list[j].key != key
    ensures Position(list, key) == k
  {
    var p := Position(list, key);
    assert list[k].key == key;
    assert p < |list| ==> list[p].key == key;
  }

  lemma WithoutAt<T>(s: seq<T>, k: nat)
    requires k < |s|
    ensures |Without(s, k)| == |s| - 1
    ensures forall a :: 0 <= a < |s| - 1 ==> Without(s, k)[a] == if a < k then s[a] else s[a + 1]
    ensures forall x :: x in s && x != s[k] ==> x in Without(s, k)
  {
  }

  lemma PositionWithout(list: seq<Item>, key: u64, p: nat)
    requires Position(list, key) < |list| && p < |list| && list[p].key != key
    ensures var k := Position(list, key);
            Position(Without(list, p), key) == if k < p then k else k - 1
  {
    var k := Position(list, key);
    WithoutAt(list, p);
    hide Without, Position;
    PositionIs(Without(list, p), key, if k < p then k else k - 1);
  }

  lemma PositionCons(item: Item, list: seq<Item>, key: u64)
    requires item.key != key && Position(list, key) < |list|
    ensures Position([item] + list, key) == Position(list, key) + 1
  {
    PositionIs([item] + list, key, Position(list, key) + 1);
  }

  lemma PositionPrefix(list: seq<Item>, key: u64, n: nat)
    requires Position(list, key) < n <= |list|
    ensures Position(list[..n], key) == Position(list, key)
  {
    PositionIs(list[..n], key, Position(list, key));
  }

  ghost predicate PushedBack(list: seq<Item>, list': seq<Item>, key: u64) {
    var k, k' := Position(list, key), Position(list', key);
    k < |list| && k' < |list'| && k' <= k + 1 && list'[k'] == list[k]
  }

  lemma OtherInsertion(list: seq<Item>, key: u64, item: Item)
    requires item.key != key && Position(list, key) < CACHE_SIZE - 1 && Position(list, key) < |list|
    ensures PushedBack(list, InsertInList(list, item), key)
  {
    if |list| < CACHE_SIZE {
      PositionCons(item, list, key);
    } else {
      PositionPrefix(list, key, CACHE_SIZE - 1);
      PositionCons(item, list[..CACHE_SIZE - 1], key);
    }
  }

  /** Taking another entry out, and putting it in front again. */
  lemma OtherTaken(list: seq<Item>, key: u64, p: nat)
    requires Position(list, key) < |list| && p < |list| && list[p].key != key
    ensures PushedBack(list, Without(list, p), key) && PushedBack(list, [list[p]] + Without(list, p), key)
  {
    var k := Position(list, key);
    assert list[k].key == key && k != p;
    PositionWithout(list, key, p);
    WithoutAt(list, p);
    hide Without, Position;
    PositionCons(list[p], Without(list, p), key);
  }

  lemma OtherLookup(list: seq<Item>, key: u64, other: u64, now: int)
    requires other != key && Position(list, key) < |list|
    ensures PushedBack(list, FindInList(list, other, now), key)
  {
    var p := Position(list, other);
    if p < |list| {
      assert list[p].key == other;
      OtherTaken(list, key, p);
      hide PushedBack, Without, Position;
    }
  }

  /** Using another key pushes an answer back by at most one place, and never off a list it is not last in. */
  lemma OtherUse(list: seq<Item>, key: u64, use: Use)
    requires KeyOf(use) != key && Position(list, key) < CACHE_SIZE - 1 && Position(list, key) < |list|
    ensures PushedBack(list, Apply(list, use), key)
  {
    match use
    case Insertion(item) => OtherInsertion(list, key, item);
    case Lookup(other, now) => OtherLookup(list, key, other, now);
  }

  /** The answer used last survives any 99 uses of other keys. */
  lemma {:induction false} RecentlyUsedStays(list: seq<Item>, uses: seq<Use>)
    requires list != [] && |uses| <= 99 && forall i :: 0 <= i < |uses| ==> KeyOf(uses[i]) != list[0].key
    ensures var k := Position(Run(list, uses), list[0].key);
            k <= |uses| && k < |Run(list, uses)| && Run(list, uses)[k] == list[0]
  {
    if uses == [] {
      PositionIs(list, list[0].key, 0);
    } else {
      var init := uses[..|uses| - 1];
      RecentlyUsedStays(list, init);
      OtherUse(Run(list, init), list[0].key, uses[|uses| - 1]);
    }
  }

  // ---- how the array represents it -------------------------------------------------------------------

  /** No two valid entries have the same key. */
  ghost predicate DistinctKeys(es: seq<Entry>) {
    forall i, j :: 0 <= i < j < |es| && es[i].valid && es[j].valid ==> es[i].key != es[j].key
  }

  /** Every valid entry is the latest answer inserted under its key. */
  ghost predicate Latest(es: seq<Entry>, latest: map<u64, Item>) {
    forall i :: 0 <= i < |es| && es[i].valid ==> es[i].key in latest && latest[es[i].key] == ItemOf(es[i])
  }

  ghost function Tick(es: seq<Entry>, i: nat): int { if i < |es| then es[i].lastUsed else 0 }

  ghost predicate Falling(es: seq<Entry>, order: seq<nat>) {
    forall a, b :: 0 <= a < b < |order| ==> Tick(es, order[a]) > Tick(es, order[b])
  }

  /** order lists exactly the valid slots, by strictly falling use tick. */
  ghost predicate Ordered(es: seq<Entry>, clock: u32, order: seq<nat>) {
    && (forall a :: 0 <= a < |order| ==> order[a] < |es| && es[order[a]].valid && es[order[a]].lastUsed <= clock)
    && (forall i: nat :: i < |es| && es[i].valid ==> i in order)
    && Falling(es, order)
  }

  ghost function Recency(es: seq<Entry>, order: seq<nat>): (list: seq<Item>)
    requires forall a :: 0 <= a < |order| ==> order[a] < |es|
    ensures |list| == |order|
  {
    seq(|order|, a requires 0 <= a < |order| => ItemOf(es[order[a]]))
  }

  lemma PositionOfSlot(es: seq<Entry>, clock: u32, order: seq<nat>, k: nat)
    requires Ordered(es, clock, order) && DistinctKeys(es) && k < |order|
    ensures Position(Recency(es, order), es[order[k]].key) == k
  {
    var list := Recency(es, order);
    var key := es[order[k]].key;
    assert list[k].key == key;
    forall j | 0 <= j < k ensures list[j].key != key {
      assert order[j] != order[k];
    }
  }

  lemma PositionOfAbsent(es: seq<Entry>, clock: u32, order: seq<nat>, key: u64)
    requires Ordered(es, clock, order)
    requires forall i :: 0 <= i < |es| && es[i].valid ==> es[i].key != key
    ensures Position(Recency(es, order), key) == |order|
  {
    var list := Recency(es, order);
    assert forall j :: 0 <= j < |list| ==> list[j].key != key;
  }

  lemma FallingWithout(es: seq<Entry>, order: seq<nat>, k: nat)
    requires Falling(es, order) && k < |order|
    ensures Falling(es, Without(order, k)) && order[k] !in Without(order, k)
  {
    var r := Without(order, k);
    WithoutAt(order, k);
    hide Without, Tick;
    forall a, b | 0 <= a < b < |r| ensures Tick(es, r[a]) > Tick(es, r[b]) {
      var a', b' := if a < k then a else a + 1, if b < k then b else b + 1;
      assert r[a] == order[a'] && r[b] == order[b'];
    }
    forall a | 0 <= a < |r| ensures r[a] != order[k] {
      var a' := if a < k then a else a + 1;
      assert r[a] == order[a'];
      assert if a' < k then Tick(es, order[a']) > Tick(es, order[k]) else Tick(es, order[k]) > Tick(es, order[a']);
    }
  }

  lemma FallingUpdate(es: seq<Entry>, order: seq<nat>, i: nat, e: Entry)
    requires Falling(es, order) && i < |es| && i !in order
    ensures Falling(es[i := e], order)
  {
    forall a | 0 <= a < |order| ensures Tick(es[i := e], order[a]) == Tick(es, order[a]) {
      assert order[a] in order;
    }
  }

  lemma DroppedOrdered(es: seq<Entry>, clock: u32, order: seq<nat>, k: nat)
    requires Ordered(es, clock, order) && k < |order|
    ensures Ordered(es[order[k] := es[order[k]].(valid := false)], clock, Without(order, k))
  {
    var order' := Without(order, k);
    WithoutAt(order, k);
    FallingWithout(es, order, k);
    FallingUpdate(es, order', order[k], es[order[k]].(valid := false));
    hide Without, Falling;
    forall a | 0 <= a < |order'| ensures order'[a] != order[k] && order'[a] in order {
      assert order'[a] in order';
    }
  }

  /** A slot is invalidated. */
  lemma Dropped(es: seq<Entry>, clock: u32, order: seq<nat>, k: nat)
    requires Ordered(es, clock, order) && k < |order|
    ensures var i := order[k];
            var es' := es[i := es[i].(valid := false)];
            && Ordered(es', clock, Without(order, k))
            && Recency(es', Without(order, k)) == Without(Recency(es, order), k)
  {
    var i := order[k];
    var es' := es[i := es[i].(valid := false)];
    var order' := Without(order, k);
    DroppedOrdered(es, clock, order, k);
    var l, r := Recency(es', order'), Without(Recency(es, order), k);
    forall a | 0 <= a < |order'| ensures l[a] == r[a] {
      assert order'[a] == if a < k then order[a] else order[a + 1];
      assert r[a] == if a < k then Recency(es, order)[a] else Recency(es, order)[a + 1];
      assert order'[a] != i;
    }
  }

  lemma FallingCons(es: seq<Entry>, order: seq<nat>, v: nat)
    requires Falling(es, order) && forall a :: 0 <= a < |order| ==> Tick(es, v) > Tick(es, order[a])
    ensures Falling(es, [v] + order)
  {
    hide Tick;
    var r := [v] + order;
    forall a, b | 0 <= a < b < |r| ensures Tick(es, r[a]) > Tick(es, r[b]) {
      assert r[b] == order[b - 1];
      if a > 0 {
        assert r[a] == order[a - 1];
      }
    }
  }

  lemma FilledRecency(es: seq<Entry>, order: seq<nat>, v: nat, e: Entry)
    requires v < |es| && forall a :: 0 <= a < |order| ==> order[a] < |es| && order[a] != v
    ensures Recency(es[v := e], [v] + order) == [ItemOf(e)] + Recency(es, order)
  {
    var l, r := Recency(es[v := e], [v] + order), [ItemOf(e)] + Recency(es, order);
    forall a | 0 <= a < |l| ensures l[a] == r[a] {
      if a > 0 {
        assert ([v] + order)[a] == order[a - 1];
      }
    }
  }

  /** An invalid slot is filled with a fresh tick. */
  lemma Filled(es: seq<Entry>, clock: u32, order: seq<nat>, v: nat, e: Entry)
    requires Ordered(es, clock, order) && v < |es| && !es[v].valid && clock < CLOCK_MAX
    requires e.valid && e.lastUsed == clock + 1
    ensures Ordered(es[v := e], clock + 1, [v] + order)
    ensures Recency(es[v := e], [v] + order) == [ItemOf(e)] + Recency(es, order)
  {
    var es', order' := es[v := e], [v] + order;
    FallingUpdate(es, order, v, e);
    forall a | 0 <= a < |order| ensures order[a] != v && Tick(es', v) > Tick(es', order[a]) && order'[a + 1] == order[a] {
      assert es[order[a]].valid;
    }
    FallingCons(es', order, v);
    hide Falling, Tick;
    FilledRecency(es, order, v, e);
    hide Recency;
    forall j: nat | j < |es'| && es'[j].valid ensures j in order' {
      assert j == v || j in order;
    }
  }

  /** A hit: the entry's tick is renewed. */
  lemma Touched(es: seq<Entry>, clock: u32, order: seq<nat>, k: nat)
    requires Ordered(es, clock, order) && k < |order| && clock < CLOCK_MAX
    ensures var i := order[k];
            var es' := es[i := es[i].(lastUsed := clock + 1)];
            && Ordered(es', clock + 1, MoveToFront(order, k))
            && Recency(es', MoveToFront(order, k)) == MoveToFront(Recency(es, order), k)
  {
    var i := order[k];
    var dropped, e := es[i := es[i].(valid := false)], es[i].(lastUsed := clock + 1);
    Dropped(es, clock, order, k);
    assert es[i].valid && ItemOf(e) == Recency(es, order)[k];
    hide Ordered, Recency, Without;
    Filled(dropped, clock, Without(order, k), i, e);
    assert dropped[i := e] == es[i := e];
  }

  // ---- counting slots --------------------------------------------------------------------------------

  ghost predicate Distinct(order: seq<nat>) {
    forall a, b :: 0 <= a < b < |order| ==> order[a] != order[b]
  }

  lemma {:induction false} DistinctCount(order: seq<nat>, n: nat)
    requires Distinct(order) && forall a :: 0 <= a < |order| ==> order[a] < n
    ensures |order| <= n
    decreases n
  {
    if order != [] {
      assert order[0] < n;
      var m: nat := n - 1;
      if m in order {
        var k :| 0 <= k < |order| && order[k] == m;
        WithoutAt(order, k);
        DistinctCount(Without(order, k), m);
      } else {
        DistinctCount(order, m);
      }
    }
  }

  lemma {:induction false} CoveringCount(order: seq<nat>, n: nat)
    requires forall i: nat :: i < n ==> i in order
    ensures |order| >= n
    decreases n
  {
    if n > 0 {
      var m: nat := n - 1;
      assert m in order;
      var k :| 0 <= k < |order| && order[k] == m;
      var rest := Without(order, k);
      WithoutAt(order, k);
      forall i: nat | i < n - 1 ensures i in rest {
        assert i in order && i != order[k];
      }
      CoveringCount(rest, n - 1);
    }
  }

  lemma OrderIsDistinct(es: seq<Entry>, clock: u32, order: seq<nat>)
    requires Ordered(es, clock, order)
    ensures Distinct(order) && |order| <= |es|
    ensures (forall i :: 0 <= i < |es| ==> es[i].valid) ==> |order| == |es|
    ensures forall v: nat :: v < |es| && !es[v].valid ==> |order| < |es|
  {
    forall a, b | 0 <= a < b < |order| ensures order[a] != order[b] {
      assert Tick(es, order[a]) > Tick(es, order[b]);
    }
    DistinctCount(order, |es|);
    if forall i :: 0 <= i < |es| ==> es[i].valid {
      CoveringCount(order, |es|);
    }
    forall v: nat | v < |es| && !es[v].valid ensures |order| < |es| {
      var more := [v] + order;
      assert forall a :: 0 < a < |more| ==> more[a] == order[a - 1];
      DistinctCount(more, |es|);
    }
  }

  /** The victim: the first free slot, or else the first one with the lowest tick. */
  ghost predicate IsVictim(es: seq<Entry>, v: nat) {
    && v < |es|
    && if exists i :: 0 <= i < |es| && !es[i].valid
       then !es[v].valid && forall i :: 0 <= i < v ==> es[i].valid
       else (forall i :: 0 <= i < |es| ==> es[v].lastUsed <= es[i].lastUsed)
            && forall i :: 0 <= i < v ==> es[v].lastUsed < es[i].lastUsed
  }

  /** Writing a new entry over the victim is insertion into the recency list. */
  lemma Replaced(es: seq<Entry>, clock: u32, order: seq<nat>, v: nat, e: Entry) returns (order': seq<nat>)
    requires Ordered(es, clock, order) && |es| == CACHE_SIZE && clock < CLOCK_MAX && IsVictim(es, v)
    requires e.valid && e.lastUsed == clock + 1
    ensures Ordered(es[v := e], clock + 1, order')
    ensures Recency(es[v := e], order') == InsertInList(Recency(es, order), ItemOf(e))
  {
    OrderIsDistinct(es, clock, order);
    if !es[v].valid {
      Filled(es, clock, order, v, e);
      order' := [v] + order;
    } else {
      var last := CACHE_SIZE - 1;
      assert forall a :: 0 <= a < last ==> Tick(es, order[a]) > Tick(es, order[last]);
      assert es[order[last]].valid && v in order;
      var dropped := es[v := es[v].(valid := false)];
      Dropped(es, clock, order, last);
      Filled(dropped, clock, Without(order, last), v, e);
      assert dropped[v := e] == es[v := e];
      assert Without(Recency(es, order), last) == Recency(es, order)[..last];
      order' := [v] + Without(order, last);
    }
  }

  /** Entries may disappear or be renewed, but keep what they say. */
  ghost predicate Shrunk(es: seq<Entry>, es': seq<Entry>) {
    |es'| == |es| && forall i :: 0 <= i < |es'| && es'[i].valid ==> es[i].valid && ItemOf(es'[i]) == ItemOf(es[i])
  }

  lemma ShrunkKeeps(es: seq<Entry>, es': seq<Entry>, latest: map<u64, Item>)
    requires Shrunk(es, es') && DistinctKeys(es) && Latest(es, latest)
    ensures DistinctKeys(es') && Latest(es', latest)
  {
    forall i, j | 0 <= i < j < |es'| && es'[i].valid && es'[j].valid ensures es'[i].key != es'[j].key {
      assert ItemOf(es'[i]) == ItemOf(es[i]) && ItemOf(es'[j]) == ItemOf(es[j]);
    }
    forall i | 0 <= i < |es'| && es'[i].valid ensures es'[i].key in latest && latest[es'[i].key] == ItemOf(es'[i]) {
      assert ItemOf(es'[i]) == ItemOf(es[i]);
    }
  }

  ghost predicate KeyCached(es: seq<Entry>, key: u64) {
    exists i :: 0 <= i < |es| && es[i].valid && es[i].key == key
  }

  ghost predicate TakesOver(es: seq<Entry>, v: nat, key: u64) { v < |es| && es[v].valid && es[v].key == key }

  /** Writing e over slot v keeps keys distinct exactly when no other slot holds e's key. */
  lemma InsertedKeys(es: seq<Entry>, latest: map<u64, Item>, v: nat, e: Entry)
    requires DistinctKeys(es) && Latest(es, latest) && v < |es| && e.valid
    ensures var es', fine := es[v := e], !KeyCached(es, e.key) || TakesOver(es, v, e.key);
            && (DistinctKeys(es') <==> fine) && (fine ==> Latest(es', latest[e.key := ItemOf(e)]))
  {
    var es' := es[v := e];
    assert forall i :: 0 <= i < |es| && i != v ==> es'[i] == es[i];
    if KeyCached(es, e.key) && !TakesOver(es, v, e.key) {
      var i :| 0 <= i < |es| && es[i].valid && es[i].key == e.key;
      assert es'[i].valid && es'[v].valid && es'[i].key == es'[v].key;
      assert i < v || v < i;
    }
  }

  // ---- the cache ----------------------------------------------------------------------------------------

  class Cache {
    var entries: array<Entry>
    var clock: u32
    ghost var latest: map<u64, Item>  // the last answer inserted under each key
    ghost var order: seq<nat>         // valid slots, most recently used first (while the clock has not wrapped)

    ghost predicate Valid()
      reads this, entries
    {
      entries.Length == CACHE_SIZE && DistinctKeys(entries[..]) && Latest(entries[..], latest)
    }

    /** The array is an exact recency list: true until the use clock wraps. */
    ghost predicate Exact()
      reads this, entries
    {
      Ordered(entries[..], clock, order)
    }

    ghost function List(): seq<Item>
      reads this, entries
      requires Exact()
    {
      Recency(entries[..], order)
    }

    ghost predicate Cached(key: u64)
      reads this, entries
    {
      exists i :: 0 <= i < entries.Length && entries[i].valid && entries[i].key == key
    }

    constructor ()
      ensures Valid() && Exact() && List() == [] && latest == map[] && clock == 0 && fresh(entries)
      ensures forall i :: 0 <= i < CACHE_SIZE ==> !entries[i].valid
    {
      entries := new Entry[CACHE_SIZE](_ => Entry(false, 0, 0, 0, []));
      clock, latest, order := 0, map[], [];
    }

    /** Invalidates slot i, an expired answer. */
    method Expire(i: nat, now: int)
      requires Valid() && i < CACHE_SIZE && entries[i].valid && Expired(ItemOf(entries[i]), now)
      modifies this`order, entries
      ensures Valid() && Shrunk(old(entries[..]), entries[..]) && !Cached(old(entries[i].key))
      ensures old(Exact()) ==> Exact() && List() == FindInList(old(List()), old(entries[i].key), now)
    {
      ghost var es, key := entries[..], entries[i].key;
      if Exact() {
        ghost var k := SlotPosition(i);
        Dropped(es, clock, order, k);
        order := Without(order, k);
      }
      entries[i] := entries[i].(valid := false);
      assert entries[..] == es[i := es[i].(valid := false)];
      ShrunkKeeps(es, entries[..], latest);
      assert forall j :: 0 <= j < CACHE_SIZE && j != i && es[j].valid ==> es[j].key != key;
    }

    /** Renews slot i, a live answer. */
    method Touch(i: nat, now: int)
      requires Valid() && i < CACHE_SIZE && entries[i].valid && !Expired(ItemOf(entries[i]), now)
      modifies this`clock, this`order, entries
      ensures Valid() && Shrunk(old(entries[..]), entries[..]) && clock == (old(clock) + 1) % TWO_32
      ensures entries[i].valid && ItemOf(entries[i]) == ItemOf(old(entries[i]))
      ensures old(Exact()) && old(clock) < CLOCK_MAX ==>
                Exact() && List() == FindInList(old(List()), old(entries[i].key), now)
    {
      hide Ordered, Recency, Without;
      ghost var es := entries[..];
      if Exact() && clock < CLOCK_MAX {
        ghost var k := SlotPosition(i);
        Touched(es, clock, order, k);
        order := MoveToFront(order, k);
      }
      clock := (clock + 1) % TWO_32;
      entries[i] := entries[i].(lastUsed := clock);
      assert entries[..] == es[i := es[i].(lastUsed := clock)];
      ShrunkKeeps(es, entries[..], latest);
    }

    /** The slot of a live answer for key, or -1; an expired one is invalidated in place. */
    method Find(key: u64, now: int) returns (hit: int)
      requires Valid()
      modifies this`clock, this`order, entries
      ensures Valid() && Shrunk(old(entries[..]), entries[..])
      ensures hit >= 0 ==>
                && hit < CACHE_SIZE && entries[hit].valid && key in latest
                && ItemOf(entries[hit]) == latest[key] && latest[key].key == key
                && now - latest[key].inserted <= 300_000_000
      ensures hit < 0 ==> !Cached(key)
      ensures clock == if hit < 0 then old(clock) else (old(clock) + 1) % TWO_32
      ensures hit < 0 <==> !old(Cached(key)) || now - latest[key].inserted > 300_000_000
      ensures old(Exact()) && old(clock) < CLOCK_MAX ==> Exact() && List() == FindInList(old(List()), key, now)
    {
      hide Ordered, DistinctKeys, FindInList, Recency;
      for i := 0 to CACHE_SIZE
        invariant forall j :: 0 <= j < i ==> !(entries[j].valid && entries[j].key == key)
        invariant clock == old(clock) && order == old(order) && entries[..] == old(entries[..])
      {
        if entries[i].valid && entries[i].key == key {
          assert entries[..][i] == entries[i];
          if now - entries[i].inserted > TTL_US {
            Expire(i, now);
            return -1;
          }
          Touch(i, now);
          assert entries[..][i] == entries[i];
          return i;
        }
      }
      if Exact() {
        MissInList(key, now);
      }
      return -1;
    }

    lemma MissInList(key: u64, now: int)
      requires Valid() && Exact() && !Cached(key)
      ensures FindInList(List(), key, now) == List()
    {
      PositionOfAbsent(entries[..], clock, order, key);
    }

    lemma SlotPosition(i: nat) returns (k: nat)
      requires Valid() && Exact() && i < CACHE_SIZE && entries[i].valid
      ensures k < |order| && order[k] == i && Position(List(), entries[i].key) == k
      ensures k < |List()| && List()[k] == ItemOf(entries[i])
    {
      assert entries[..][i].valid && i in order;
      k :| 0 <= k < |order| && order[k] == i;
      PositionOfSlot(entries[..], clock, order, k);
    }

    /** What the scan finds under a key is what the list holds. */
    lemma LatestInList(key: u64)
      requires Valid() && Exact()
      ensures Cached(key) <==> Position(List(), key) < |List()|
      ensures Cached(key) ==> key in latest && List()[Position(List(), key)] == latest[key]
    {
      if Cached(key) {
        var i: nat :| i < entries.Length && entries[i].valid && entries[i].key == key;
        assert entries[..][i] == entries[i];
        var k := SlotPosition(i);
      } else {
        PositionOfAbsent(entries[..], clock, order, key);
      }
    }

    method PickVictim() returns (victim: nat)
      requires Valid()
      ensures IsVictim(entries[..], victim)
    {
      victim := 0;
      var oldest: u32 := CLOCK_MAX;
      for i := 0 to CACHE_SIZE
        invariant victim < CACHE_SIZE
        invariant forall j :: 0 <= j < i ==> entries[j].valid && oldest <= entries[j].lastUsed
        invariant if oldest < CLOCK_MAX then entries[victim].lastUsed == oldest else victim == 0
        invariant forall j :: 0 <= j < victim ==> oldest < entries[j].lastUsed
      {
        if !entries[i].valid {
          assert !entries[..][i].valid;
          return i;
        }
        if entries[i].lastUsed < oldest {
          oldest := entries[i].lastUsed;
          victim := i;
        }
      }
    }

    /**
     * Writes the answer over a free slot or the least recently used one; too large an answer is dropped. It does
     * not look for the key: keys stay distinct exactly when no other slot than the victim holds it.
     */
    method Insert(key: u64, data: bytes, now: int) returns (ghost victim: nat)
      requires Valid()
      modifies this, entries
      ensures entries == old(entries) && entries.Length == CACHE_SIZE && IsVictim(old(entries[..]), victim)
      ensures !(0 < |data| <= 1500) ==>
                Valid() && entries[..] == old(entries[..]) && latest == old(latest)
                && clock == old(clock) && order == old(order)
      ensures 0 < |data| <= 1500 ==>
                && clock == (old(clock) + 1) % TWO_32
                && entries[..] == old(entries[..])[victim := Entry(true, key, now, clock, data)]
                && latest == old(latest)[key := Item(key, now, data)]
                && (Valid() <==> !old(Cached(key)) || TakesOver(old(entries[..]), victim, key))
                && (DistinctKeys(entries[..]) <==> !old(Cached(key)) || TakesOver(old(entries[..]), victim, key))
      ensures old(Exact()) && old(clock) < CLOCK_MAX && 0 < |data| <= MAX_DATA ==>
                Exact() && List() == InsertInList(old(List()), Item(key, now, data))
    {
      hide Ordered, Recency, InsertInList, IsVictim, DistinctKeys, Latest;
      var v := PickVictim();
      victim := v;
      if |data| == 0 || |data| > MAX_DATA {
        return;
      }
      ghost var es := entries[..];
      var tick: u32 := (clock + 1) % TWO_32;
      var e := Entry(true, key, now, tick, data);
      if Exact() && clock < CLOCK_MAX {
        order := Replaced(es, clock, order, v, e);
      }
      InsertedKeys(es, latest, v, e);
      CachedInEntries(key);
      clock := tick;
      entries[v] := e;
      assert entries[..] == es[v := e];
      latest := latest[key := Item(key, now, data)];
    }

    lemma CachedInEntries(key: u64)
      ensures Cached(key) <==> KeyCached(entries[..], key)
    {
      assert forall i :: 0 <= i < entries.Length ==> entries[i] == entries[..][i];
    }
  }

  /** Inserting one key twice in a row leaves two valid entries for it. */
  method InsertedTwice(key: u64, first: bytes, second: bytes, now: int) returns (c: Cache)
    requires 0 < |first| <= MAX_DATA && 0 < |second| <= MAX_DATA
    ensures fresh(c) && !c.Valid() && c.entries.Length == CACHE_SIZE
    ensures c.entries[0].valid && c.entries[0].key == key && c.entries[1].valid && c.entries[1].key == key
  {
    hide IsVictim, DistinctKeys, Latest, Ordered, Recency;
    c := new Cache();
    assert c.Valid();
    ghost var none := c.entries[..];
    assert forall i :: 0 <= i < CACHE_SIZE ==> !none[i].valid;
    ghost var v := c.Insert(key, first, now);
    FirstFree(none, v, 0);
    ghost var one := c.entries[..];
    assert c.entries[0] == one[0] && c.Cached(key);
    ghost var w := c.Insert(key, second, now);
    FirstFree(one, w, 1);
    ghost var two := c.entries[..];
    assert two[0] == c.entries[0] && two[1] == c.entries[1];
  }

  lemma FirstFree(es: seq<Entry>, v: nat, k: nat)
    requires IsVictim(es, v) && k < |es| && !es[k].valid && forall i :: 0 <= i < k ==> es[i].valid
    ensures v == k
  {
  }
}
