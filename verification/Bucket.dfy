/**
  One bucket: an index storage, a list of data storages, and at most one parked resize that the
  next writer applies.
 */
module Buckets {
  import opened Options
  import opened Arithmetic
  import opened Storage
  import opened IndexEntries
  import opened IndexOps
  import opened BucketState
  import opened BucketSteps

  datatype BucketMapError =
    | DataNoSpace(dataIndex: nat, pow2: nat)
    | IndexNoSpace(pow2: nat)

  datatype Outcome = Ok | Err(error: BucketMapError)

  datatype Round = Done | Grown | Failed

  /** How a computed resize ends: well, for lack of any larger capacity, or in a panic. */
  datatype Growth = Fine | Exhausted | Panicked

  /** A stored map with `key` added, with an empty list, if it was not there. */
  ghost function WithKey<T>(m: map<Pubkey, Value<T>>, key: Pubkey): (r: map<Pubkey, Value<T>>) {
    if key in m then m else m[key := Value([], 0)]
  }

  /** A stored map after a write that found its data window full: only the count of `key` is set. */
  ghost function WithCount<T>(m: map<Pubkey, Value<T>>, key: Pubkey, refCount: nat): (r: map<Pubkey, Value<T>>) {
    WithKey(m, key)[key := WithKey(m, key)[key].(refCount := refCount)]
  }

  /** The effect of a write that has not succeeded yet: none, or the new reference count of its key. */
  ghost predicate Touched<T>(m: map<Pubkey, Value<T>>, m': map<Pubkey, Value<T>>, key: Pubkey, refCount: nat) {
    m' == m || m' == WithCount(m, key, refCount)
  }

  /** A stored map after an attempt to write, told from the outcome of the attempt. */
  ghost function Written<T>(m: map<Pubkey, Value<T>>, key: Pubkey, slots: seq<T>, refCount: nat, r: Outcome)
    : (r': map<Pubkey, Value<T>>)
  {
    match r
    case Ok => m[key := Value(slots, refCount)]
    case Err(IndexNoSpace(_)) => m
    case Err(DataNoSpace(_, pow2)) => if pow2 == 0 then m else WithCount(m, key, refCount)
  }

  lemma TouchedTwice<T>(m: map<Pubkey, Value<T>>, m': map<Pubkey, Value<T>>, m'': map<Pubkey, Value<T>>, key: Pubkey, refCount: nat)
    requires Touched(m, m', key, refCount) && Touched(m', m'', key, refCount)
    ensures Touched(m, m'', key, refCount)
  {
  }

  lemma TouchedThenWritten<T>(m: map<Pubkey, Value<T>>, m': map<Pubkey, Value<T>>, key: Pubkey, refCount: nat, slots: seq<T>)
    requires Touched(m, m', key, refCount)
    ensures m'[key := Value(slots, refCount)] == m[key := Value(slots, refCount)]
    ensures Leaky(m', key, slots) == Leaky(m, key, slots)
  {
  }

  lemma TouchedElsewhere<T>(m: map<Pubkey, Value<T>>, m': map<Pubkey, Value<T>>, key: Pubkey, refCount: nat)
    requires Touched(m, m', key, refCount)
    ensures m' - {key} == m - {key}
  {
  }

  lemma TouchedCalm<T>(env: Env, m: map<Pubkey, Value<T>>, m': map<Pubkey, Value<T>>, key: Pubkey, refCount: nat, leaks: nat)
    requires Touched(m, m', key, refCount)
    ensures Calm(env, m', leaks, key) <==> Calm(env, m, leaks, key)
  {
    hide Touched, Reach;
    TouchedElsewhere(m, m', key, refCount);
  }

  /** There is no room for a new key: its window is full of distinct stored keys. */
  ghost predicate Crowded<T>(env: Env, s: State<T>, key: Pubkey)
    requires StateOk(env, s)
  {
    && key !in Stored(env, s) && NoCell(env, s.index, s.random, key)
    && KeysProbed(env, s, key) <= Stored(env, s).Keys
    && Reach(env, s.index.pow2) <= |KeysProbed(env, s, key)| <= |Stored(env, s)|
  }

  lemma CrowdedNotCalm<T>(env: Env, s: State<T>, key: Pubkey)
    requires StateOk(env, s) && Crowded(env, s, key) && s.index.pow2 >= DEFAULT_CAPACITY_POW2
    ensures !Calm(env, Stored(env, s), Leaks(env, s), key)
  {
    hide StateOk, Stored, Leaks, KeysProbed;
    ReachGrows(env, DEFAULT_CAPACITY_POW2, s.index.pow2);
    assert Stored(env, s) - {key} == Stored(env, s);
  }

  /** The key is stored, or there is a free cell in its window. */
  ghost predicate Room<T>(env: Env, s: State<T>, key: Pubkey)
    requires StateOk(env, s)
  {
    key in Stored(env, s) || !NoCell(env, s.index, s.random, key)
  }

  /** There is room for every key as long as there are fewer keys than a probe visits cells. */
  lemma FewKeysRoom<T>(env: Env, s: State<T>, key: Pubkey)
    requires StateOk(env, s) && |Stored(env, s)| < Reach(env, s.index.pow2)
    ensures Room(env, s, key)
  {
    if NoCell(env, s.index, s.random, key) {
      NoRoom(env, s, key);
    }
  }

  lemma RoomIfStored<T>(env: Env, s: State<T>, key: Pubkey)
    requires StateOk(env, s) && key in Stored(env, s)
    ensures Room(env, s, key)
  {
  }

  lemma WithCountHas<T>(m: map<Pubkey, Value<T>>, key: Pubkey, refCount: nat)
    ensures key in WithCount(m, key, refCount)
  {
  }

  /** A list of n slots goes where the key's present list is. */
  ghost predicate InPlace<T>(m: map<Pubkey, Value<T>>, key: Pubkey, n: nat) {
    key in KeysAt(m, CeilLog2(n))
  }

  lemma TouchedInPlace<T>(m: map<Pubkey, Value<T>>, m': map<Pubkey, Value<T>>, key: Pubkey, refCount: nat, n: nat)
    requires Touched(m, m', key, refCount)
    ensures InPlace(m', key, n) <==> InPlace(m, key, n)
  {
    hide CeilLog2;
  }

  /** The data storage of a stored list exists, and the key is in the index. */
  lemma InPlaceHas<T>(env: Env, s: State<T>, key: Pubkey, n: nat)
    requires StateOk(env, s) && InPlace(Stored(env, s), key, n)
    ensures CeilLog2(n) < |s.data| && Room(env, s, key)
  {
    KeysStored(env, s);
    var p := PositionOf(s.index, key);
    EntryFacts(env, s, p);
    hide StateOk, Stored, CeilLog2;
  }

  /** How much growth is left for an index and a data storage of these capacities. */
  function Slack(indexPow2: nat, dataPow2: nat): (r: int) {
    2 * MAX_CAPACITY_POW2 - indexPow2 - dataPow2
  }

  /** Writing `slots` leaves the old data cell of `key` occupied without an owner. */
  ghost predicate Leaky<T>(m: map<Pubkey, Value<T>>, key: Pubkey, slots: seq<T>) {
    key in m && |m[key].slots| == 1 && slots == []
  }

  function Lookup<T>(m: map<Pubkey, Value<T>>, key: Pubkey): (r: Option<Value<T>>) {
    if key in m then Some(m[key]) else None
  }

  /** The new reference count of a key, if it is stored. */
  function CountOf<T>(m: map<Pubkey, Value<T>>, key: Pubkey, count: nat -> nat): (r: Option<nat>) {
    if key in m then Some(count(m[key].refCount)) else None
  }

  /** A plain map after a change of one reference count. */
  ghost function Recounted<T>(m: map<Pubkey, Value<T>>, key: Pubkey, count: nat -> nat): (r: map<Pubkey, Value<T>>) {
    if key in m then m[key := m[key].(refCount := count(m[key].refCount))] else m
  }

  /** A plain map after one key was given a value, or was deleted. */
  ghost function Changed<T>(m: map<Pubkey, Value<T>>, key: Pubkey, value: Option<Value<T>>): (r: map<Pubkey, Value<T>>) {
    if value.Some? then m[key := value.value] else m - {key}
  }

  /** Giving a key a value leaves its old data cell occupied without an owner. */
  ghost predicate ChangeLeaks<T>(m: map<Pubkey, Value<T>>, key: Pubkey, value: Option<Value<T>>) {
    value.Some? && Leaky(m, key, value.value.slots)
  }

  datatype BucketItem<+T> = BucketItem(pubkey: Pubkey, refCount: nat, slotList: seq<T>)

  ghost predicate Listed<T>(item: BucketItem<T>, m: map<Pubkey, Value<T>>, range: Option<KeyRange>) {
    item.pubkey in m && Selects(range, item.pubkey) && m[item.pubkey] == Value(item.slotList, item.refCount)
  }

  /** The items are exactly the entries of m in the range, each of them once. */
  ghost predicate Lists<T>(items: seq<BucketItem<T>>, m: map<Pubkey, Value<T>>, range: Option<KeyRange>) {
    && (forall i: nat :: i < |items| ==> Listed(items[i], m, range))
    && (forall i: nat, j: nat :: i < j < |items| ==> items[i].pubkey != items[j].pubkey)
    && (forall k :: k in m && Selects(range, k) ==> exists i: nat :: i < |items| && items[i].pubkey == k)
  }

  lemma ListsNone<T>(range: Option<KeyRange>)
    ensures Lists<T>([], map[], range)
  {
  }

  lemma ListsAdd<T>(items: seq<BucketItem<T>>, m: map<Pubkey, Value<T>>, range: Option<KeyRange>, item: BucketItem<T>)
    requires Lists(items, m, range) && item.pubkey !in m && Selects(range, item.pubkey)
    ensures Lists(items + [item], m[item.pubkey := Value(item.slotList, item.refCount)], range)
  {
    hide Selects;
    var items', m' := items + [item], m[item.pubkey := Value(item.slotList, item.refCount)];
    assert items'[|items|] == item;
    forall k | k in m' && Selects(range, k)
      ensures exists i: nat :: i < |items'| && items'[i].pubkey == k
    {
      if k != item.pubkey {
        var i: nat :| i < |items| && items[i].pubkey == k;
        assert items'[i].pubkey == k;
      }
    }
  }

  lemma ListsSkip<T>(items: seq<BucketItem<T>>, m: map<Pubkey, Value<T>>, range: Option<KeyRange>, key: Pubkey, v: Value<T>)
    requires Lists(items, m, range) && key !in m && !Selects(range, key)
    ensures Lists(items, m[key := v], range)
  {
  }

  /** The part of a stored map whose keys are in the first n cells of the index. */
  ghost function Seen<T>(m: map<Pubkey, Value<T>>, t: Table<IndexEntry>, n: nat): (r: map<Pubkey, Value<T>>)
    requires UniqueKeys(t) && n <= |t.cells|
  {
    map k | k in m && k in Entries(Prefix(t, n)) :: m[k]
  }

  lemma SeenStep<T>(m: map<Pubkey, Value<T>>, t: Table<IndexEntry>, n: nat)
    requires UniqueKeys(t) && n < |t.cells| && m.Keys == Entries(t).Keys
    ensures t.Occupied(n) ==>
              var key := t.cells[n].item.key;
              key in m && key !in Seen(m, t, n) && Seen(m, t, n + 1) == Seen(m, t, n)[key := m[key]]
    ensures !t.Occupied(n) ==> Seen(m, t, n + 1) == Seen(m, t, n)
  {
    hide UniqueKeys, KeySet, PositionOf, Prefix;
    PrefixStep(t, n);
  }

  lemma SeenEnds<T>(m: map<Pubkey, Value<T>>, t: Table<IndexEntry>)
    requires UniqueKeys(t) && m.Keys == Entries(t).Keys
    ensures Seen(m, t, 0) == map[] && Seen(m, t, |t.cells|) == m
  {
    PrefixNone(t);
    PrefixAll(t);
  }

  /** The items of the first n cells of an index whose keys are in the range, in the order of the cells. */
  ghost function Listing<T>(m: map<Pubkey, Value<T>>, t: Table<IndexEntry>, n: nat, range: Option<KeyRange>): (r: seq<BucketItem<T>>)
    requires UniqueKeys(t) && m.Keys == Entries(t).Keys && n <= |t.cells|
  {
    if n == 0 then []
    else
      PrefixWithin(t, n);
      var before, key := Listing(m, t, n - 1, range), t.cells[n - 1].item.key;
      if t.Occupied(n - 1) && Selects(range, key) then before + [BucketItem(key, m[key].refCount, m[key].slots)] else before
  }

  /** Before the first cell nothing is listed; after the last one everything is. */
  lemma SeenFirst<T>(env: Env, s: State<T>, range: Option<KeyRange>)
    requires StateOk(env, s)
    ensures UniqueKeys(s.index) && |s.index.cells| == Pow2(s.index.pow2) && Stored(env, s).Keys == Entries(s.index).Keys
    ensures Lists([], Seen(Stored(env, s), s.index, 0), range) && Seen(Stored(env, s), s.index, |s.index.cells|) == Stored(env, s)
  {
    hide Entries, UniqueKeys, Seen, Lists, Stored;
    KeysStored(env, s);
    SeenEnds(Stored(env, s), s.index);
    ListsNone<T>(range);
  }

  // ---------------------------------------------------------------------------
  // The storages of a bucket

  ghost function Maps<T>(data: seq<BucketStorage<seq<T>>>): (s: set<object>) {
    set s | s in data :: s.mmap
  }

  ghost function Counters<T>(data: seq<BucketStorage<seq<T>>>): (s: set<object>) {
    set s | s in data :: s.count
  }

  /** Distinct storages have distinct cells and distinct counters. */
  ghost predicate Separate<T>(index: BucketStorage<IndexEntry>, data: seq<BucketStorage<seq<T>>>) {
    && index.Valid()
    && index.mmap !in Maps(data) && index.count !in Counters(data)
    && (forall d: nat :: d < |data| ==> data[d].Valid() && data[d].numElems == Pow2(d))
    && (forall i: nat, j: nat :: i < j < |data| ==> data[i].mmap != data[j].mmap && data[i].count != data[j].count)
  }

  /** The tables of a list of data storages. */
  ghost function Views<T>(data: seq<BucketStorage<seq<T>>>): (v: Data<T>)
    reads Maps(data)
    ensures |v| == |data|
  {
    seq(|data|, d requires 0 <= d < |data| reads Maps(data) => data[d].View())
  }

  /** A storage's counter is the number of its occupied cells. */
  ghost predicate Counted<C>(s: BucketStorage<C>)
    reads s.mmap, s.count
  {
    s.count.n == |s.View().Used()|
  }

  ghost predicate AllCounted<T>(data: seq<BucketStorage<seq<T>>>)
    reads Maps(data), Counters(data)
  {
    forall d: nat :: d < |data| ==> Counted(data[d])
  }

  /** One changed cell in one storage is one changed cell in the view of all of them. */
  lemma CellChanged<T>(data: seq<BucketStorage<seq<T>>>, before: Data<T>, s: Site, c: Cell<seq<T>>)
    requires InRange(s, before) && |before| == |data|
    requires data[s.d].View() == before[s.d].(cells := before[s.d].cells[s.loc := c])
    requires forall d: nat :: d < |data| && d != s.d ==> data[d].View() == before[d]
    ensures Views(data) == SetCell(before, s, c)
  {
  }

  /** Gives a data cell back to the storage that holds it. */
  method FreeData<T>(index: BucketStorage<IndexEntry>, data: seq<BucketStorage<seq<T>>>, s: Site, uid: nat)
    requires Separate(index, data) && AllCounted(data) && InRange(s, Views(data))
    requires uid != UID_UNLOCKED && CellAt(s, Views(data)).lock == uid
    modifies data[s.d].mmap, data[s.d].count
    ensures AllCounted(data)
    ensures Views(data) == SetCell(old(Views(data)), s, old(CellAt(s, Views(data))).(lock := UID_UNLOCKED))
  {
    ghost var before := Views(data);
    assert data[s.d].View() == before[s.d];
    data[s.d].Free(s.loc, uid);
    UsedAfter(before[s.d], s.loc, CellAt(s, before).(lock := UID_UNLOCKED));
    CellChanged(data, before, s, CellAt(s, before).(lock := UID_UNLOCKED));
  }

  /** Takes a free data cell and copies slots into it. */
  method AllocateData<T>(index: BucketStorage<IndexEntry>, data: seq<BucketStorage<seq<T>>>, s: Site, uid: nat, slots: seq<T>)
    requires Separate(index, data) && AllCounted(data) && InRange(s, Views(data))
    requires uid != UID_UNLOCKED && CellAt(s, Views(data)).lock == UID_UNLOCKED
    requires |slots| <= Pow2(s.d)
    modifies data[s.d].mmap, data[s.d].count
    ensures AllCounted(data)
    ensures Views(data) == SetCell(old(Views(data)), s, Cell(uid, Overlay(slots, old(CellAt(s, Views(data))).item)))
  {
    ghost var before := Views(data);
    assert data[s.d].View() == before[s.d];
    AllocateAndCopy(data[s.d], s.loc, uid, slots);
    UsedAfter(before[s.d], s.loc, Cell(uid, Overlay(slots, CellAt(s, before).item)));
    CellChanged(data, before, s, Cell(uid, Overlay(slots, CellAt(s, before).item)));
  }

  /** Copies slots over the front of a data cell. */
  method OverwriteData<T>(index: BucketStorage<IndexEntry>, data: seq<BucketStorage<seq<T>>>, s: Site, slots: seq<T>)
    requires Separate(index, data) && AllCounted(data) && InRange(s, Views(data)) && |slots| <= Pow2(s.d)
    modifies data[s.d].mmap
    ensures AllCounted(data)
    ensures var c := old(CellAt(s, Views(data)));
            Views(data) == SetCell(old(Views(data)), s, c.(item := Overlay(slots, c.item)))
  {
    ghost var before := Views(data);
    assert data[s.d].View() == before[s.d];
    CopyToCell(data[s.d], s.loc, slots);
    UsedAfter(before[s.d], s.loc, CellAt(s, before).(item := Overlay(slots, CellAt(s, before).item)));
    CellChanged(data, before, s, CellAt(s, before).(item := Overlay(slots, CellAt(s, before).item)));
  }

  /** Frees the data cell that an entry owns, if any. */
  method ReleaseData<T>(env: Env, index: BucketStorage<IndexEntry>, data: seq<BucketStorage<seq<T>>>, elem: IndexEntry, uid: nat)
    requires Separate(index, data) && AllCounted(data) && EntryOk(env, elem, Views(data)) && uid == KeyUid(env, elem.key)
    modifies Maps(data), Counters(data)
    ensures AllCounted(data) && Views(data) == Released(env, elem, old(Views(data)))
  {
    hide AllCounted;
    if elem.numSlots > 0 {
      var d := elem.DataBucketIx();
      assert data[d].View() == Views(data)[d];
      FreeData(index, data, Site(d, elem.DataLoc(data[d].capacityPow2)), uid);
    }
  }

  /** Frees the data cell that an entry owns, if any, and puts the slots, if any, into a free one. */
  method RelocateData<T>(env: Env, index: BucketStorage<IndexEntry>, data: seq<BucketStorage<seq<T>>>,
                          elem: IndexEntry, uid: nat, site: Site, slots: seq<T>)
    requires Separate(index, data) && AllCounted(data) && EntryOk(env, elem, Views(data)) && uid == KeyUid(env, elem.key)
    requires InRange(site, Views(data)) && CellAt(site, Views(data)).lock == UID_UNLOCKED && |slots| <= Pow2(site.d)
    modifies Maps(data), Counters(data)
    ensures AllCounted(data) && Views(data) == Relocated(env, elem, old(Views(data)), site, slots)
  {
    hide AllCounted, EntryOk;
    ReleasedKeeps(env, elem, Views(data), site);
    ReleaseData(env, index, data, elem, uid);
    if |slots| > 0 {
      AllocateData(index, data, site, uid, slots);
    }
  }

  /** The first free cell within maxSearch cells from pos on, if there is one. */
  method FindFree<C>(storage: BucketStorage<C>, pos: nat, maxSearch: nat) returns (r: Option<nat>)
    requires storage.Valid() && pos < storage.Capacity()
    ensures r.Some? ==> r.value < storage.mmap.Length && storage.IsFree(r.value)
                        && Distance(pos, r.value, storage.mmap.Length) < maxSearch
    ensures r.Some? ==> FirstFree(storage.View(), pos, maxSearch, r.value)
    ensures r.None? ==> WindowFull(storage.View(), pos, maxSearch)
  {
    var cap := storage.Capacity();
    var i := pos;
    while i < pos + maxSearch
      invariant pos <= i
      invariant forall p: nat :: p < cap && Distance(pos, p, cap) < i - pos ==> storage.View().Occupied(p)
    {
      var ix := i % cap;
      ProbeDistance(pos, i - pos, cap);
      if storage.IsFree(ix) {
        return Some(ix);
      }
      forall p: nat | p < cap && Distance(pos, p, cap) == i - pos
        ensures storage.View().Occupied(p)
      {
        ProbeReaches(pos, p, cap);
      }
      i := i + 1;
    }
    r := None;
  }

  /**
    A storage that may take place d in a bucket: a resized copy of the storage that is there now,
    sharing its counter, or a vacant storage with a counter of its own.
   */
  ghost predicate FitsAt<T>(index: BucketStorage<IndexEntry>, data: seq<BucketStorage<seq<T>>>, d: nat, storage: BucketStorage<seq<T>>)
    reads Maps(data), storage.mmap, storage.count
  {
    && storage.Valid() && storage.numElems == Pow2(d)
    && storage.mmap !in Maps(data) + {index.mmap}
    && if d < |data| then
         && storage.count == data[d].count && data[d].capacityPow2 <= storage.capacityPow2
         && storage.View() == Resized(data[d].View(), storage.capacityPow2, [])
       else
         && storage.count != index.count && storage.count !in Counters(data) && storage.count.n == 0
         && storage.capacityPow2 >= DEFAULT_CAPACITY_POW2 && storage.View() == Vacant(storage.capacityPow2, [])
  }

  /** A re-built index that spells out the same map of entries as the present one. */
  ghost predicate SameIndex<T>(env: Env, index: BucketStorage<IndexEntry>, data: seq<BucketStorage<seq<T>>>,
                               random: nat, storage: BucketStorage<IndexEntry>)
    reads index.mmap, storage.mmap
  {
    && storage.Valid() && storage.count == index.count && index.capacityPow2 < storage.capacityPow2
    && storage.mmap !in Maps(data) + {index.mmap}
    && UniqueKeys(index.View()) && IndexOk(env, storage.View(), random)
    && Entries(storage.View()) == Entries(index.View())
  }

  /** A list of storages after one was replaced, or added behind as many default ones as were missing. */
  ghost predicate Installed<T>(before: seq<BucketStorage<seq<T>>>, after: seq<BucketStorage<seq<T>>>,
                               ix: nat, storage: BucketStorage<seq<T>>)
  {
    && ix < |after| && after[ix] == storage
    && if ix < |before| then after == before[ix := storage]
       else && |after| == ix + 1 && before <= after
            && forall d: nat :: |before| <= d < ix ==> after[d].capacityPow2 == DEFAULT_CAPACITY_POW2
  }

  /** The capacity that a data storage which was found full grows to. */
  function NextPow2(currentPow2: nat): (r: nat)
    ensures r > currentPow2 && r >= DEFAULT_CAPACITY_POW2
  {
    if currentPow2 + 1 > DEFAULT_CAPACITY_POW2 then currentPow2 + 1 else DEFAULT_CAPACITY_POW2
  }

  /** A full data storage doubles; a missing one gets 32 cells. */
  lemma NextDoubles(pow2: nat)
    ensures pow2 >= DEFAULT_CAPACITY_POW2 ==> Pow2(NextPow2(pow2)) == 2 * Pow2(pow2)
    ensures Pow2(NextPow2(0)) == 32
  {
    assert Pow2(5) == 32;
  }

  lemma NextPow2Limit(pow2: nat)
    ensures NextPow2(pow2) > MAX_CAPACITY_POW2 <==> pow2 >= MAX_CAPACITY_POW2
  {
  }

  // ---------------------------------------------------------------------------

  /** A resize computed under a read lock and not applied yet. */
  class Reallocated<T> {
    var active: nat
    var index: Option<(nat, BucketStorage<IndexEntry>)>
    var data: Option<(nat, BucketStorage<seq<T>>)>

    constructor ()
      ensures Idle()
    {
      active, index, data := 0, None, None;
    }

    predicate Idle()
      reads this
    {
      active == 0 && index == None && data == None
    }

    /** Counts a resize. One at a time: a second one panics. */
    method AddReallocation() returns (ok: bool)
      modifies this`active
      ensures ok <==> old(active) == 0
      ensures active == old(active) + if ok then 1 else 0
    {
      ok := active == 0;
      if ok {
        active := active + 1;
      }
    }
  }

  class Bucket<T> {
    const env: Env
    var index: BucketStorage<IndexEntry>
    var random: nat
    var data: seq<BucketStorage<seq<T>>>
    const reallocated: Reallocated<T>

    ghost function View(): (s: State<T>)
      reads this, index.mmap, Maps(data)
    {
      State(index.View(), random, Views(data))
    }

    /** The capacity of data storage d, 0 if it is missing. */
    function DataPow2(d: nat): (r: nat)
      reads this
    {
      if d < |data| then data[d].capacityPow2 else 0
    }

    /** All objects that hold the bucket's cells and counters. */
    ghost function Objects(): (s: set<object>)
      reads this
    {
      {index.mmap, index.count} + Maps(data) + Counters(data)
    }

    ghost predicate Valid()
      reads this, index.mmap, index.count, Maps(data), Counters(data)
    {
      && Separate(index, data) && index.capacityPow2 >= DEFAULT_CAPACITY_POW2
      && Counted(index) && AllCounted(data)
      && StateOk(env, View())
    }

    constructor (env: Env, count: Counter)
      requires count.n == 0
      ensures Valid() && this.env == env && Stored(env, View()) == map[] && Leaks(env, View()) == 0
      ensures index.count == count && fresh(index.mmap) && data == []
      ensures fresh(reallocated) && reallocated.Idle()
      ensures IndexPow2() == DEFAULT_CAPACITY_POW2 && index.View() == Vacant(DEFAULT_CAPACITY_POW2, ZeroEntry())
    {
      this.env := env;
      this.index := new BucketStorage(1, DEFAULT_CAPACITY_POW2, ZeroEntry(), count);
      this.random := *;
      this.data := [];
      this.reallocated := new Reallocated();
      new;
      assert index.View().Used() == {};
      Initial(env, View());
    }

    /** The counters tell how many keys are stored, and how many data cells are in use. */
    lemma CountersTell(d: nat)
      requires Valid() && d < |data|
      ensures index.count.n == |Stored(env, View())|
      ensures data[d].count.n == |KeysAt(Stored(env, View()), d)| + if d == 0 then Leaks(env, View()) else 0
    {
      hide StateOk, Stored, Leaks, KeysAt;
      OccupiedCells(env, View(), d);
      assert data[d].View() == Views(data)[d];
    }

    // -------------------------------------------------------------------------
    // Reading

    /** The current value of a key, or nothing if the key is not stored. */
    method ReadValue(key: Pubkey) returns (r: Option<Value<T>>)
      requires Valid()
      ensures Valid() && r == Lookup(Stored(env, View()), key)
    {
      var found := Find(key);
      if found.None? {
        return None;
      }
      EntryFacts(env, View(), found.value);
      r := Some(ReadEntry(found.value));
    }

    method Find(key: Pubkey) returns (r: Option<nat>)
      requires Valid()
      ensures r.Some? <==> key in Stored(env, View())
      ensures r.Some? ==> View().index.Occupied(r.value) && EntryAt(View(), r.value).key == key
    {
      hide DataOk;
      KeysStored(env, View());
      r := FindEntry(env, index, key, random);
    }

    /** Reads the slots an occupied index cell refers to. The data cell's uid is checked on the way. */
    function ReadEntry(p: nat): (v: Value<T>)
      requires Separate(index, data) && index.View().Occupied(p)
      requires EntryOk(env, index.View().cells[p].item, Views(data))
      reads this, index.mmap, Maps(data)
      ensures var elem := index.View().cells[p].item;
              v == Value(ReadSlots(env, elem, Views(data)), elem.refCount)
    {
      var elem := index.mmap[p].item;
      var d := elem.DataBucketIx();
      var slots :=
        if elem.numSlots > 0 then
          assert data[d].View() == Views(data)[d];
          var loc := elem.DataLoc(data[d].capacityPow2);
          assert data[d].Uid(loc) == Some(KeyUid(env, elem.key));
          data[d].mmap[loc].item[..elem.numSlots]
        else
          [];
      Value(slots, elem.refCount)
    }

    // -------------------------------------------------------------------------
    // Writing

    /** Writes the entry of an occupied index cell. */
    method PutEntry(p: nat, e: IndexEntry)
      requires Separate(index, data) && Counted(index) && index.View().Occupied(p)
      modifies index.mmap
      ensures Counted(index) && AllCounted(data) == old(AllCounted(data))
      ensures View() == SetEntry(old(View()), p, e)
    {
      UsedAfter(index.View(), p, Cell(index.View().cells[p].lock, e));
      index.Put(p, e);
    }

    /** Finds the key's index cell, or takes a free one for it with an empty list. */
    method LocateOrCreate(key: Pubkey) returns (r: Option<nat>)
      requires Valid() && data != []
      modifies index.mmap, index.count
      ensures Valid() && Views(data) == old(Views(data)) && Leaks(env, View()) == old(Leaks(env, View()))
      ensures r.Some? ==> View().index.Occupied(r.value) && EntryAt(View(), r.value).key == key
      ensures r.Some? ==> Stored(env, View()) == WithKey(old(Stored(env, View())), key)
      ensures r.Some? <==> old(Room(env, View(), key))
      ensures r.None? ==> View() == old(View()) && Crowded(env, View(), key)
    {
      hide StateOk, Stored, Leaks, AllCounted, Counted;
      r := Find(key);
      if r.None? {
        ghost var s := View();
        r := CreateEntry(key);
        if r.None? {
          NoRoom(env, s, key);
        } else {
          CreateStep(env, s, r.value, key);
        }
      }
    }

    /** Takes a free index cell in the key's window. */
    method CreateEntry(key: Pubkey) returns (r: Option<nat>)
      requires Separate(index, data) && Counted(index)
      modifies index.mmap, index.count
      ensures Counted(index) && AllCounted(data) == old(AllCounted(data))
      ensures r.None? ==> View() == old(View())
      ensures r.None? ==> WindowFull(index.View(), IndexStart(env, index.capacityPow2, key, random), env.maxSearch)
      ensures r.Some? ==> InWindow(env, index.capacityPow2, random, key, r.value) && !old(View()).index.Occupied(r.value)
      ensures r.Some? ==>
                View() == old(View()).(index := SetIndexCell(old(View()).index, r.value, Cell(KeyUid(env, key), InitEntry(key))))
    {
      ghost var t := index.View();
      r := CreateKey(env, index, key, KeyUid(env, key), random, false);
      if r.Some? {
        UsedAfter(t, r.value, Cell(KeyUid(env, key), InitEntry(key)));
      }
    }

    /** Sets the reference count in an occupied index cell. */
    method SetRefCount(p: nat, refCount: nat)
      requires Valid() && View().index.Occupied(p)
      modifies index.mmap
      ensures Valid() && Views(data) == old(Views(data)) && Leaks(env, View()) == old(Leaks(env, View()))
      ensures View().index.Occupied(p) && EntryAt(View(), p) == old(EntryAt(View(), p)).(refCount := refCount)
      ensures var key := EntryAt(View(), p).key;
              && key in old(Stored(env, View()))
              && Stored(env, View()) == old(Stored(env, View()))[key := old(Stored(env, View()))[key].(refCount := refCount)]
    {
      hide StateOk, Stored, Leaks, AllCounted;
      CountStep(env, View(), p, refCount);
      PutEntry(p, index.mmap[p].item.(refCount := refCount));
    }

    /** Overwrites a non-empty list by one that belongs in the same data storage. */
    method WriteInPlace(p: nat, slots: seq<T>)
      requires Valid() && View().index.Occupied(p)
      requires EntryAt(View(), p).numSlots > 0 && CeilLog2(|slots|) == EntryAt(View(), p).DataBucketIx()
      modifies index.mmap, Maps(data)
      ensures Valid()
      ensures var e := old(EntryAt(View(), p));
              && Stored(env, View()) == old(Stored(env, View()))[e.key := Value(slots, e.refCount)]
              && Leaks(env, View()) == old(Leaks(env, View())) + if slots == [] then 1 else 0
    {
      hide StateOk, Stored, Leaks, AllCounted;
      var elem := index.mmap[p].item;
      OverwriteStep(env, View(), p, slots);
      CeilLog2Bounds(|slots|);
      var d := elem.DataBucketIx();
      assert data[d].View() == Views(data)[d];
      var site := Site(d, elem.DataLoc(data[d].capacityPow2));
      assert data[d].Uid(site.loc) == Some(KeyUid(env, elem.key));
      PutEntry(p, elem.(numSlots := |slots|));
      OverwriteData(index, data, site, slots);
    }

    /** Moves the entry's list to cell ix of the best-fitting data storage. */
    method MoveTo(p: nat, ix: nat, slots: seq<T>)
      requires Separate(index, data) && Counted(index) && AllCounted(data) && index.View().Occupied(p)
      requires index.View().cells[p].lock == KeyUid(env, EntryAt(View(), p).key)
      requires EntryOk(env, EntryAt(View(), p), Views(data))
      requires CeilLog2(|slots|) < |data| && ix < data[CeilLog2(|slots|)].mmap.Length && data[CeilLog2(|slots|)].IsFree(ix)
      requires ix < OFFSET_RANGE && data[CeilLog2(|slots|)].capacityPow2 < 256
      modifies index.mmap, Maps(data), Counters(data)
      ensures Counted(index) && AllCounted(data)
      ensures var e := old(EntryAt(View(), p)); var best := CeilLog2(|slots|);
              InRange(Site(best, ix), old(Views(data)))
              && View() == SetEntry(old(View()), p, MovedEntry(e, ix, data[best].capacityPow2, |slots|))
                          .(data := Relocated(env, e, old(Views(data)), Site(best, ix), slots))
    {
      hide AllCounted, Counted, EntryOk;
      var elem, uid, best := index.mmap[p].item, index.mmap[p].lock, CeilLog2(|slots|);
      assert data[best].View() == Views(data)[best];
      CeilLog2Bounds(|slots|);
      PutEntry(p, MovedEntry(elem, ix, data[best].capacityPow2, |slots|));
      RelocateData(env, index, data, elem, uid, Site(best, ix), slots);
    }

    /** Puts a list into a free cell of its best-fitting storage, searching from a random position. */
    method WriteMoved(p: nat, slots: seq<T>) returns (ok: bool)
      requires Valid() && View().index.Occupied(p) && CeilLog2(|slots|) < |data|
      requires EntryAt(View(), p).numSlots > 0 ==> CeilLog2(|slots|) != EntryAt(View(), p).DataBucketIx()
      modifies index.mmap, Maps(data), Counters(data)
      ensures Valid()
      ensures ok ==>
                var e := old(EntryAt(View(), p));
                && Stored(env, View()) == old(Stored(env, View()))[e.key := Value(slots, e.refCount)]
                && Leaks(env, View()) == old(Leaks(env, View()))
      ensures !ok ==> View() == old(View()) && !Roomy(Views(data)[CeilLog2(|slots|)], env.maxSearch)
      ensures !ok ==> !Calm(env, Stored(env, View()), Leaks(env, View()), EntryAt(View(), p).key)
      ensures !ok ==> !InPlace(Stored(env, View()), EntryAt(View(), p).key, |slots|)
    {
      hide StateOk, Stored, Leaks, AllCounted, Counted, EntryOk;
      var best := CeilLog2(|slots|);
      assert data[best].View() == Views(data)[best];
      var pos: nat :| pos < data[best].Capacity();
      var found := FindFree(data[best], pos, env.maxSearch);
      ok := found.Some?;
      EntryFacts(env, View(), p);
      if ok {
        MoveStep(env, View(), p, found.value, slots);
        MoveTo(p, found.value, slots);
      } else {
        CrowdedTable(env, View(), best, pos, index.mmap[p].item.key);
      }
    }

    /** Finds or creates the key's entry and sets its reference count. */
    method Prepare(key: Pubkey, refCount: nat) returns (r: Option<nat>)
      requires Valid() && data != []
      modifies index.mmap, index.count
      ensures Valid() && Views(data) == old(Views(data)) && Leaks(env, View()) == old(Leaks(env, View()))
      ensures r.Some? ==> View().index.Occupied(r.value) && EntryAt(View(), r.value).key == key
                          && EntryAt(View(), r.value).refCount == refCount
      ensures r.Some? ==> Stored(env, View()) == WithCount(old(Stored(env, View())), key, refCount)
      ensures r.Some? <==> old(Room(env, View(), key))
      ensures r.None? ==> View() == old(View()) && Crowded(env, View(), key)
    {
      hide StateOk, Leaks, AllCounted, Counted, EntryOk, Stored;
      r := LocateOrCreate(key);
      if r.Some? {
        SetRefCount(r.value, refCount);
      }
    }

    /** Stores a list for an entry, in place if the entry's cell is the best fit, else in a free cell. */
    method WriteSlots(p: nat, slots: seq<T>) returns (ok: bool)
      requires Valid() && View().index.Occupied(p) && CeilLog2(|slots|) < |data|
      modifies index.mmap, Maps(data), Counters(data)
      ensures Valid()
      ensures ok ==>
                var e := old(EntryAt(View(), p));
                && Stored(env, View()) == old(Stored(env, View()))[e.key := Value(slots, e.refCount)]
                && Leaks(env, View()) == old(Leaks(env, View())) + if Leaky(old(Stored(env, View())), e.key, slots) then 1 else 0
      ensures !ok ==> View() == old(View()) && !Roomy(Views(data)[CeilLog2(|slots|)], env.maxSearch)
      ensures !ok ==> !Calm(env, Stored(env, View()), Leaks(env, View()), EntryAt(View(), p).key)
      ensures !ok ==> !InPlace(Stored(env, View()), EntryAt(View(), p).key, |slots|)
    {
      hide StateOk, Leaks, AllCounted, Counted, EntryOk, Stored, Calm;
      EntryFacts(env, View(), p);
      var elem := index.mmap[p].item;
      if CeilLog2(|slots|) == elem.DataBucketIx() && elem.numSlots > 0 {
        WriteInPlace(p, slots);
        ok := true;
      } else {
        ok := WriteMoved(p, slots);
      }
    }

    /**
      Writes a value without growing anything. A failure names what has to grow; only a full data
      window leaves a trace, which is the key's new reference count.
     */
    method TryWrite(key: Pubkey, slots: seq<T>, refCount: nat) returns (r: Outcome)
      requires Valid()
      modifies index.mmap, index.count, Maps(data), Counters(data)
      ensures Valid()
      ensures Stored(env, View()) == Written(old(Stored(env, View())), key, slots, refCount, r)
      ensures Leaks(env, View()) == old(Leaks(env, View())) + if r.Ok? && Leaky(old(Stored(env, View())), key, slots) then 1 else 0
      ensures r.Ok? ==> CeilLog2(|slots|) < |data|
      ensures CeilLog2(|slots|) < |data| ==> DataPow2(CeilLog2(|slots|)) > 0
      ensures r.Err? && r.error.IndexNoSpace? <==> CeilLog2(|slots|) < |data| && !old(Room(env, View(), key))
      ensures r.Err? && r.error.IndexNoSpace? ==>
                && r.error == IndexNoSpace(index.capacityPow2) && View() == old(View()) && Crowded(env, View(), key)
      ensures r.Err? && r.error.DataNoSpace? ==>
                var best := CeilLog2(|slots|);
                && r.error == DataNoSpace(best, DataPow2(best)) && Views(data) == old(Views(data))
                && (Room(env, View(), key) <==> old(Room(env, View(), key)))
                && (best >= |data| ==> View() == old(View()))
                && (best < |data| ==> r.error.pow2 >= DEFAULT_CAPACITY_POW2)
                && (best < |data| ==> !Roomy(Views(data)[best], env.maxSearch) && key in Stored(env, View()))
      ensures r.Err? ==> !old(InPlace(Stored(env, View()), key, |slots|)) && !InPlace(Stored(env, View()), key, |slots|)
      ensures r.Err? && old(Calm(env, Stored(env, View()), Leaks(env, View()), key)) ==>
                r.error.DataNoSpace? && CeilLog2(|slots|) >= |data|
    {
      hide StateOk, Leaks, AllCounted, Counted, EntryOk, Stored, Calm, Crowded, Room, WithCount, Leaky, CeilLog2, InPlace;
      var best := CeilLog2(|slots|);
      if InPlace(Stored(env, View()), key, |slots|) {
        InPlaceHas(env, View(), key, |slots|);
      }
      if best >= |data| {
        return Err(DataNoSpace(best, 0));
      }
      ghost var m, leaks := Stored(env, View()), Leaks(env, View());
      TableSized(env, View(), best);
      var found := Prepare(key, refCount);
      if found.None? {
        CrowdedNotCalm(env, View(), key);
        return Err(IndexNoSpace(index.capacityPow2));
      }
      TouchedCalm(env, m, Stored(env, View()), key, refCount, leaks);
      TouchedThenWritten(m, Stored(env, View()), key, refCount, slots);
      TouchedInPlace(m, Stored(env, View()), key, refCount, |slots|);
      WithCountHas(m, key, refCount);
      TableSized(env, View(), best);
      var ok := WriteSlots(found.value, slots);
      RoomIfStored(env, View(), key);
      r := if ok then Ok else Err(DataNoSpace(best, data[best].capacityPow2));
    }

    method DeleteKey(key: Pubkey)
      requires Valid()
      modifies index.mmap, index.count, Maps(data), Counters(data)
      ensures Valid()
      ensures Stored(env, View()) == old(Stored(env, View())) - {key} && Leaks(env, View()) == old(Leaks(env, View()))
    {
      hide StateOk, Leaks, EntryOk, Stored, AllCounted, Released, KeyUid;
      var found := Find(key);
      if found.Some? {
        var p := found.value;
        var elem, uid := index.mmap[p].item, index.mmap[p].lock;
        ghost var s := View();
        EntryFacts(env, s, p);
        DeleteStep(env, s, p);
        UsedAfter(s.index, p, Cell(UID_UNLOCKED, elem));
        ReleaseData(env, index, data, elem, uid);
        index.Free(p, uid);
      }
    }

    /** Adds one to a key's reference count, modulo 2^64. */
    method AddRef(key: Pubkey) returns (r: Option<nat>)
      requires Valid()
      modifies index.mmap
      ensures Valid() && Leaks(env, View()) == old(Leaks(env, View()))
      ensures r == CountOf(old(Stored(env, View())), key, CountUp)
      ensures Stored(env, View()) == Recounted(old(Stored(env, View())), key, CountUp)
      ensures r == if key in Stored(env, View()) then Some(Stored(env, View())[key].refCount) else None
    {
      hide StateOk, Leaks, AllCounted, EntryOk, Stored;
      var found := Find(key);
      if found.None? {
        return None;
      }
      EntryFacts(env, View(), found.value);
      var n := CountUp(index.mmap[found.value].item.refCount);
      SetRefCount(found.value, n);
      r := Some(n);
    }

    /** Takes one from a key's reference count, modulo 2^64. */
    method UnRef(key: Pubkey) returns (r: Option<nat>)
      requires Valid()
      modifies index.mmap
      ensures Valid() && Leaks(env, View()) == old(Leaks(env, View()))
      ensures r == CountOf(old(Stored(env, View())), key, CountDown)
      ensures Stored(env, View()) == Recounted(old(Stored(env, View())), key, CountDown)
      ensures r == if key in Stored(env, View()) then Some(Stored(env, View())[key].refCount) else None
    {
      hide StateOk, Leaks, AllCounted, EntryOk, Stored;
      var found := Find(key);
      if found.None? {
        return None;
      }
      EntryFacts(env, View(), found.value);
      var n := CountDown(index.mmap[found.value].item.refCount);
      SetRefCount(found.value, n);
      r := Some(n);
    }

    // -------------------------------------------------------------------------
    // Growing

    /** Puts a resized copy in the place of a data storage. */
    method ReplaceStorage(d: nat, storage: BucketStorage<seq<T>>)
      requires Valid() && d < |data| && FitsAt(index, data, d, storage)
      modifies this`data
      ensures Valid() && data == old(data)[d := storage]
      ensures Stored(env, View()) == old(Stored(env, View())) && Leaks(env, View()) == old(Leaks(env, View()))
    {
      hide StateOk, Leaks, Stored, Pow2;
      ghost var s := View();
      assert data[d].View() == s.data[d];
      ResizeStep(env, s, d, storage.capacityPow2);
      ResizedUsed(data[d].View(), storage.capacityPow2, []);
      data := data[d := storage];
      assert Views(data) == GrowTable(s.data, d, storage.capacityPow2);
    }

    /** Adds a vacant data storage at the end. */
    method PushStorage(storage: BucketStorage<seq<T>>)
      requires Valid() && FitsAt(index, data, |data|, storage)
      modifies this`data
      ensures Valid() && data == old(data) + [storage]
      ensures Stored(env, View()) == old(Stored(env, View())) && Leaks(env, View()) == old(Leaks(env, View()))
    {
      hide StateOk, Leaks, Stored;
      ghost var s := View();
      AppendStep(env, s, storage.capacityPow2);
      assert storage.View().Used() == {};
      data := data + [storage];
      assert Views(data) == s.data + [Vacant(storage.capacityPow2, [])];
    }

    /** Adds a vacant data storage of the default capacity. */
    method PushDefault()
      requires Valid()
      modifies this`data
      ensures Valid() && |data| == |old(data)| + 1 && data[..|old(data)|] == old(data)
      ensures fresh(data[|old(data)|].mmap) && fresh(data[|old(data)|].count)
      ensures data[|old(data)|].capacityPow2 == DEFAULT_CAPACITY_POW2
      ensures Stored(env, View()) == old(Stored(env, View())) && Leaks(env, View()) == old(Leaks(env, View()))
    {
      hide StateOk, Leaks, Stored, AllCounted, Counted;
      var count := new Counter();
      var empty := new BucketStorage<seq<T>>(Pow2(|data|), DEFAULT_CAPACITY_POW2, [], count);
      PushStorage(empty);
    }

    /** Adds vacant data storages until there are n. */
    method PadTo(n: nat)
      requires Valid() && |data| <= n
      modifies this`data
      ensures Valid()
      ensures Stored(env, View()) == old(Stored(env, View())) && Leaks(env, View()) == old(Leaks(env, View()))
      ensures |data| == n && old(data) <= data
      ensures forall d: nat :: |old(data)| <= d < |data| ==> fresh(data[d].mmap) && fresh(data[d].count)
      ensures forall d: nat :: |old(data)| <= d < |data| ==> data[d].capacityPow2 == DEFAULT_CAPACITY_POW2
    {
      hide StateOk, Leaks, Stored, AllCounted, Counted, Separate;
      while |data| < n
        invariant Valid() && |data| <= n && old(data) <= data
        invariant forall d: nat :: |old(data)| <= d < |data| ==> fresh(data[d].mmap) && fresh(data[d].count)
        invariant forall d: nat :: |old(data)| <= d < |data| ==> data[d].capacityPow2 == DEFAULT_CAPACITY_POW2
        invariant Stored(env, View()) == old(Stored(env, View())) && Leaks(env, View()) == old(Leaks(env, View()))
        decreases n - |data|
      {
        PushDefault();
      }
    }

    /** Installs a data storage, adding vacant default storages below it if it is further up. */
    method ApplyGrowData(ix: nat, storage: BucketStorage<seq<T>>)
      requires Valid() && FitsAt(index, data, ix, storage)
      modifies this`data
      ensures Valid() && Installed(old(data), data, ix, storage)
      ensures fresh(Objects() - old(Objects()) - {storage.mmap, storage.count})
      ensures Stored(env, View()) == old(Stored(env, View())) && Leaks(env, View()) == old(Leaks(env, View()))
    {
      hide StateOk, Leaks, Stored, AllCounted, Counted, Separate;
      if ix >= |data| {
        PadTo(ix);
        PushStorage(storage);
      } else {
        ReplaceStorage(ix, storage);
      }
    }

    /** Swaps in a re-built index and its random. */
    method ApplyGrowIndex(newRandom: nat, storage: BucketStorage<IndexEntry>)
      requires Valid() && SameIndex(env, index, data, newRandom, storage)
      modifies this`index, this`random
      ensures Valid() && index == storage && random == newRandom && index.count == old(index.count)
      ensures Objects() <= old(Objects()) + {storage.mmap}
      ensures Stored(env, View()) == old(Stored(env, View())) && Leaks(env, View()) == old(Leaks(env, View()))
    {
      hide StateOk, Stored, Leaks, AllCounted, IndexOk, Entries, UniqueKeys;
      ReindexStep(env, View(), storage.View(), newRandom);
      index, random := storage, newRandom;
    }

    /** The objects that only a parked resize refers to. */
    ghost function ParkedObjects(): (s: set<object>)
      reads reallocated
    {
      (if reallocated.index.Some? then {reallocated.index.value.1.mmap} else {}) +
      (if reallocated.data.Some? then {reallocated.data.value.1.mmap, reallocated.data.value.1.count} else {})
    }

    /**
      The deferred-growth protocol: either nothing is parked and the counter is 0, or the counter
      is 1 and exactly one resize is parked, and that resize is of the storage in use now.
     */
    ghost predicate ParkedOk()
      reads this, reallocated, index.mmap, Maps(data), ParkedObjects()
    {
      || reallocated.Idle()
      || (&& reallocated.active == 1 && reallocated.data == None && reallocated.index.Some?
          && SameIndex(env, index, data, reallocated.index.value.0, reallocated.index.value.1))
      || (&& reallocated.active == 1 && reallocated.index == None && reallocated.data.Some?
          && FitsAt(index, data, reallocated.data.value.0, reallocated.data.value.1))
    }

    lemma GrownRoomy(source: Option<BucketStorage<seq<T>>>, pow2: nat)
      requires source.Some? ==> source.value.Valid()
      ensures env.maxSearch >= 2 && source.Some? && source.value.capacityPow2 < pow2 ==>
                Roomy(Resized(source.value.View(), pow2, []), env.maxSearch)
      ensures env.maxSearch >= 2 ==> Roomy(Vacant<seq<T>>(pow2, []), env.maxSearch)
    {
      if env.maxSearch >= 2 {
        VacantRoomy<seq<T>>(pow2, [], env.maxSearch);
        if source.Some? && source.value.capacityPow2 < pow2 {
          ResizedRoomy(source.value.View(), pow2, [], env.maxSearch);
        }
      }
    }

    /**
      Parks a resized copy of a data storage, or a new one. Runs under a read lock. Panics on a
      capacity below the present one, or if something else is pending.
     */
    method GrowData(d: nat, currentPow2: nat) returns (r: Growth)
      requires Valid() && ParkedOk()
      modifies reallocated
      ensures r.Exhausted? <==> NextPow2(currentPow2) > MAX_CAPACITY_POW2
      ensures r.Panicked? <==> !r.Exhausted? && !old(GrowSafe(DataNoSpace(d, currentPow2)))
      ensures r.Fine? ==> reallocated.data.Some? && reallocated.data.value.0 == d && reallocated.index == None
                          && reallocated.data.value.1.capacityPow2 == NextPow2(currentPow2)
      ensures r.Fine? && env.maxSearch >= 2 && (d < |data| ==> data[d].capacityPow2 < NextPow2(currentPow2)) ==>
                Roomy(reallocated.data.value.1.View(), env.maxSearch)
      ensures ParkedOk() && (!r.Fine? ==> unchanged(reallocated))
      ensures fresh(ParkedObjects() - Counters(data) - old(ParkedObjects()))
    {
      hide StateOk, AllCounted, Counted, NextPow2, Roomy, SameIndex;
      if NextPow2(currentPow2) > MAX_CAPACITY_POW2 {
        return Exhausted;
      }
      if d < |data| && NextPow2(currentPow2) < data[d].capacityPow2 {
        return Panicked;
      }
      var source := if d < |data| then Some(data[d]) else None;
      GrownRoomy(source, NextPow2(currentPow2));
      var storage := NewResized(source, NextPow2(currentPow2), Pow2(d), []);
      var ok := reallocated.AddReallocation();
      if !ok {
        return Panicked;
      }
      reallocated.data := Some((d, storage));
      r := Fine;
    }

    /**
      Parks a larger index with another random, trying one doubling after another until every key
      finds room. An error that no longer describes the present capacity is ignored. Runs under a
      read lock. Panics if something else is pending.
     */
    method GrowIndex(currentPow2: nat) returns (r: Growth)
      requires Valid() && ParkedOk()
      modifies reallocated
      ensures Valid() && ParkedOk() && (!r.Fine? ==> unchanged(reallocated))
      ensures r.Panicked? <==> !r.Exhausted? && !old(GrowSafe(IndexNoSpace(currentPow2)))
      ensures index.capacityPow2 != currentPow2 ==> r.Fine? && unchanged(reallocated)
      ensures fresh(ParkedObjects() - old(ParkedObjects()))
      ensures index.capacityPow2 == currentPow2 && r.Fine? ==>
                && reallocated.index.Some?
                && NextLarger(env, Stored(env, View()).Keys, currentPow2, reallocated.index.value.1.capacityPow2)
                && reallocated.data == None
      ensures r.Exhausted? ==> index.capacityPow2 == currentPow2 && Cramped(env, Stored(env, View()).Keys, index.capacityPow2)
    {
      hide StateOk, AllCounted, Counted, Entries, IndexOk, UniqueKeys, Cramped, NextLarger, Stored, FitsAt;
      if index.capacityPow2 != currentPow2 {
        return Fine;
      }
      var grown := LargerIndex();
      if grown.None? {
        return Exhausted;
      }
      var ok := reallocated.AddReallocation();
      if !ok {
        return Panicked;
      }
      reallocated.index := grown;
      r := Fine;
    }

    /** A larger index for the present keys, under another random. */
    method LargerIndex() returns (r: Option<(nat, BucketStorage<IndexEntry>)>)
      requires Valid()
      ensures r.Some? ==> SameIndex(env, index, data, r.value.0, r.value.1) && fresh(r.value.1.mmap)
      ensures r.Some? ==> NextLarger(env, Stored(env, View()).Keys, index.capacityPow2, r.value.1.capacityPow2)
      ensures r.None? ==> Cramped(env, Stored(env, View()).Keys, index.capacityPow2)
    {
      hide StateOk, AllCounted, Counted, Entries, IndexOk, UniqueKeys, Cramped, MayJam, Stored;
      KeysIndexed(env, View());
      r := SearchIndex(env, index, random);
    }

    /** Takes what is parked, if there is something, and installs it. */
    method TakeParked()
      requires Valid() && ParkedOk()
      modifies this`index, this`random, this`data, reallocated
      ensures Valid() && reallocated.Idle()
      ensures Stored(env, View()) == old(Stored(env, View())) && Leaks(env, View()) == old(Leaks(env, View()))
      ensures index.count == old(index.count)
      ensures old(reallocated.index).Some? ==> (random, index) == old(reallocated.index).value && data == old(data)
      ensures old(reallocated.index).None? ==> index == old(index) && random == old(random)
      ensures old(reallocated.data).Some? ==>
                Installed(old(data), data, old(reallocated.data).value.0, old(reallocated.data).value.1)
      ensures old(reallocated.data).None? ==> data == old(data)
      ensures fresh(Objects() - old(Objects()) - old(ParkedObjects()))
    {
      hide StateOk, Stored, Leaks, AllCounted, Counted, SameIndex, FitsAt, Installed;
      if reallocated.active == 1 {
        if reallocated.index.Some? {
          TakeIndex();
        } else {
          TakeData();
        }
      }
    }

    /** Applies a parked resize, if there is one. What is stored does not change. */
    method HandleDelayedGrows()
      requires Valid() && ParkedOk()
      modifies this`index, this`random, this`data, reallocated
      ensures Valid() && reallocated.Idle()
      ensures Stored(env, View()) == old(Stored(env, View())) && Leaks(env, View()) == old(Leaks(env, View()))
      ensures index.count == old(index.count)
      ensures old(reallocated.index).Some? ==> (random, index) == old(reallocated.index).value && data == old(data)
      ensures old(reallocated.index).None? ==> index == old(index) && random == old(random)
      ensures old(reallocated.data).Some? ==>
                Installed(old(data), data, old(reallocated.data).value.0, old(reallocated.data).value.1)
      ensures old(reallocated.data).None? ==> data == old(data)
      ensures fresh(Objects() - old(Objects()) - old(ParkedObjects()))
      ensures IndexPow2() == old(IndexPow2()) && FinalIndex() == old(FinalIndex())
      ensures forall d :: FinalPow2(d) == old(FinalPow2(d)) && (old(FinalRoomy(d)) ==> FinalRoomy(d))
    {
      hide Valid, ParkedOk, Stored, Leaks, Installed, FinalRoomy, FinalPow2, FinalIndex, IndexPow2, Objects;
      TakeParked();
      Applied(0);
      forall d: nat
        ensures FinalPow2(d) == old(FinalPow2(d)) && (old(FinalRoomy(d)) ==> FinalRoomy(d))
      {
        Applied(d);
      }
    }

    /** What was to be applied is what there is after it was applied. */
    twostate lemma Applied(d: nat)
      requires reallocated.Idle()
      requires old(reallocated.index).Some? ==> (random, index) == old(reallocated.index).value && data == old(data)
      requires old(reallocated.index).None? ==> index == old(index) && random == old(random)
      requires old(reallocated.data).Some? ==>
                 Installed(old(data), data, old(reallocated.data).value.0, old(reallocated.data).value.1)
      requires old(reallocated.data).None? ==> data == old(data)
      requires unchanged(old(Maps(data) + ParkedObjects() + {index.mmap}))
      ensures IndexPow2() == old(IndexPow2()) && FinalPow2(d) == old(FinalPow2(d)) && FinalIndex() == old(FinalIndex())
      ensures old(FinalRoomy(d)) ==> FinalRoomy(d)
    {
      hide Roomy;
      if old(FinalRoomy(d)) {
        var storage := data[d];
        assert storage.View() == Views(data)[d];
        assert storage.mmap in old(Maps(data)) || storage.mmap in old(ParkedObjects());
        assert old(storage.View()) == storage.View();
        assert d < |old(data)| && storage == old(data)[d] ==> old(storage.View()) == old(Views(data)[d]);
      }
    }

    /** The capacity that the index has once what is parked has been applied. */
    function IndexPow2(): (r: nat)
      reads this, reallocated
    {
      if reallocated.index.Some? then reallocated.index.value.1.capacityPow2 else index.capacityPow2
    }

    /** The random and the index that there are then. */
    ghost function FinalIndex(): (r: (nat, Table<IndexEntry>))
      reads this, reallocated, index.mmap, ParkedObjects()
    {
      if reallocated.index.Some? then (reallocated.index.value.0, reallocated.index.value.1.View()) else (random, index.View())
    }

    /** The capacity that data storage d has then, 0 if it is missing. */
    function FinalPow2(d: nat): (r: nat)
      reads this, reallocated
    {
      if reallocated.data.Some? && reallocated.data.value.0 == d then reallocated.data.value.1.capacityPow2
      else if d < |data| then data[d].capacityPow2
      else if reallocated.data.Some? && d < reallocated.data.value.0 then DEFAULT_CAPACITY_POW2
      else 0
    }

    /** Data storage d has then a free cell in every window. */
    ghost predicate FinalRoomy(d: nat)
      reads this, reallocated, Maps(data), ParkedObjects()
    {
      if reallocated.data.Some? && reallocated.data.value.0 == d then Roomy(reallocated.data.value.1.View(), env.maxSearch)
      else d < |data| && Roomy(Views(data)[d], env.maxSearch)
    }

    /** Takes a parked index out of the parking place and installs it. */
    method TakeIndex()
      requires Valid() && reallocated.active == 1 && reallocated.data == None && reallocated.index.Some?
      requires SameIndex(env, index, data, reallocated.index.value.0, reallocated.index.value.1)
      modifies this`index, this`random, reallocated
      ensures Valid() && reallocated.Idle()
      ensures Stored(env, View()) == old(Stored(env, View())) && Leaks(env, View()) == old(Leaks(env, View()))
      ensures (random, index) == old(reallocated.index).value && index.count == old(index.count)
      ensures Objects() <= old(Objects()) + old(ParkedObjects())
    {
      hide StateOk, Stored, Leaks, AllCounted, Counted, IndexOk, Entries, UniqueKeys;
      reallocated.active := 0;
      var parked := reallocated.index.value;
      reallocated.index := None;
      ApplyGrowIndex(parked.0, parked.1);
    }

    /** Takes a parked data storage out of the parking place. */
    method Unpark() returns (d: nat, storage: BucketStorage<seq<T>>)
      requires Valid() && reallocated.active == 1 && reallocated.index == None && reallocated.data.Some?
      requires FitsAt(index, data, reallocated.data.value.0, reallocated.data.value.1)
      modifies reallocated
      ensures Valid() && reallocated.Idle() && (d, storage) == old(reallocated.data).value
      ensures FitsAt(index, data, d, storage)
    {
      hide StateOk, AllCounted, Counted;
      reallocated.active := 0;
      d, storage := reallocated.data.value.0, reallocated.data.value.1;
      reallocated.data := None;
    }

    /** Takes a parked data storage out of the parking place and installs it. */
    method TakeData()
      requires Valid() && reallocated.active == 1 && reallocated.index == None && reallocated.data.Some?
      requires FitsAt(index, data, reallocated.data.value.0, reallocated.data.value.1)
      modifies this`data, reallocated
      ensures Valid() && reallocated.Idle()
      ensures Stored(env, View()) == old(Stored(env, View())) && Leaks(env, View()) == old(Leaks(env, View()))
      ensures Installed(old(data), data, old(reallocated.data).value.0, old(reallocated.data).value.1)
      ensures fresh(Objects() - old(Objects()) - old(ParkedObjects()))
    {
      hide StateOk, Stored, Leaks, AllCounted, Counted, FitsAt, Installed, Separate;
      var d, storage := Unpark();
      ApplyGrowData(d, storage);
    }

    /** Nothing else is pending, and the capacity does not shrink. */
    predicate GrowSafe(error: BucketMapError)
      reads this, reallocated
    {
      match error
      case DataNoSpace(d, pow2) => reallocated.Idle() && (d < |data| ==> data[d].capacityPow2 <= NextPow2(pow2))
      case IndexNoSpace(pow2) => index.capacityPow2 == pow2 ==> reallocated.Idle()
    }

    /**
      Parks what an error asks for. Runs under a read lock: nothing but the parking place changes.
      If there is a larger capacity it panics exactly when it is not safe.
     */
    method Grow(error: BucketMapError) returns (r: Growth)
      requires Valid() && ParkedOk()
      modifies reallocated
      ensures Valid() && View() == old(View()) && ParkedOk() && (!r.Fine? ==> unchanged(reallocated))
      ensures r.Panicked? <==> !r.Exhausted? && !old(GrowSafe(error))
      ensures fresh(ParkedObjects() - Objects() - old(ParkedObjects()))
      ensures error.DataNoSpace? ==> (r.Exhausted? <==> NextPow2(error.pow2) > MAX_CAPACITY_POW2)
      ensures error.DataNoSpace? && r.Fine? ==>
                var d, pow2 := error.dataIndex, NextPow2(error.pow2);
                && IndexPow2() == old(IndexPow2()) && FinalIndex() == old(FinalIndex()) && FinalPow2(d) == pow2
                && (env.maxSearch >= 2 && old(FinalPow2(d)) < pow2 ==> FinalRoomy(d))
      ensures error.IndexNoSpace? && index.capacityPow2 != error.pow2 ==> r.Fine? && unchanged(reallocated)
      ensures error.IndexNoSpace? && index.capacityPow2 == error.pow2 && r.Fine? ==>
                && old(IndexPow2()) == error.pow2 && NextLarger(env, Stored(env, View()).Keys, error.pow2, IndexPow2())
                && forall d :: FinalPow2(d) == old(FinalPow2(d)) == DataPow2(d)
      ensures error.IndexNoSpace? && r.Exhausted? ==>
                index.capacityPow2 == error.pow2 && Cramped(env, Stored(env, View()).Keys, index.capacityPow2)
    {
      hide StateOk, AllCounted, Counted, SameIndex, FitsAt, NextPow2, Roomy, Cramped, NextLarger, Stored;
      match error
      case DataNoSpace(d, pow2) => r := GrowData(d, pow2);
      case IndexNoSpace(pow2) => r := GrowIndex(pow2);
    }

    /** Grows a data storage that has just been found full or missing, and applies it at once. */
    method GrowDataNow(d: nat, pow2: nat) returns (ok: bool)
      requires Valid() && reallocated.Idle() && pow2 == DataPow2(d)
      modifies this`index, this`random, this`data, reallocated
      ensures Valid() && reallocated.Idle() && index == old(index) && random == old(random)
      ensures Stored(env, View()) == old(Stored(env, View())) && Leaks(env, View()) == old(Leaks(env, View()))
      ensures fresh(Objects() - old(Objects()))
      ensures ok <==> NextPow2(pow2) <= MAX_CAPACITY_POW2
      ensures ok ==> d < |data| && DataPow2(d) == NextPow2(pow2)
      ensures ok && env.maxSearch >= 2 ==> Roomy(Views(data)[d], env.maxSearch)
      ensures !ok ==> View() == old(View()) && data == old(data)
    {
      hide StateOk, Stored, Leaks, AllCounted, Counted, FitsAt, SameIndex, Roomy, NextPow2, Cramped, Installed, Views;
      assert ParkedObjects() == {};
      var r := Grow(DataNoSpace(d, pow2));
      ok := r.Fine?;
      NextPow2Limit(pow2);
      ghost var objects, parked := Objects(), ParkedObjects();
      label Parked:
      HandleDelayedGrows();
      hide Objects, ParkedObjects;
      forall o | o in Objects() && o !in old(Objects())
        ensures fresh(o)
      {
        assert o in objects || o in parked || fresh@Parked(o);
      }
    }

    /** Grows an index that has just been found full, and applies it at once. */
    method GrowIndexNow() returns (ok: bool)
      requires Valid() && reallocated.Idle()
      modifies this`index, this`random, this`data, reallocated
      ensures Valid() && reallocated.Idle() && index.count == old(index.count)
      ensures Stored(env, View()) == old(Stored(env, View())) && Leaks(env, View()) == old(Leaks(env, View()))
      ensures fresh(Objects() - old(Objects())) && data == old(data)
      ensures ok ==> NextLarger(env, Stored(env, View()).Keys, old(index.capacityPow2), index.capacityPow2)
      ensures !ok ==> View() == old(View()) && index == old(index) && Cramped(env, Stored(env, View()).Keys, index.capacityPow2)
    {
      hide StateOk, Stored, Leaks, AllCounted, Counted, FitsAt, SameIndex, Cramped, MayJam;
      var r := Grow(IndexNoSpace(index.capacityPow2));
      ok := r.Fine?;
      HandleDelayedGrows();
    }

    /**
      Why a write of n slots for a key gives up: they have to be moved to a data storage that has a
      full window and is at the largest capacity, or the key is new, its window in the index is full,
      and re-indexing may fail at every larger capacity.
     */
    ghost predicate Stuck(key: Pubkey, n: nat)
      requires Valid()
      reads this, index.mmap, index.count, Maps(data), Counters(data)
    {
      var d := CeilLog2(n);
      || (&& d < |data| && DataPow2(d) >= MAX_CAPACITY_POW2 && !Roomy(Views(data)[d], env.maxSearch)
          && !InPlace(Stored(env, View()), key, n))
      || (Crowded(env, View(), key) && Cramped(env, Stored(env, View()).Keys, index.capacityPow2))
    }

    /** The storage that a list of n slots belongs in has a free cell in every window. */
    ghost predicate IsRoomy(n: nat)
      reads this, Maps(data)
    {
      CeilLog2(n) < |data| && Roomy(Views(data)[CeilLog2(n)], env.maxSearch)
    }

    /** The storage that a list of n slots belongs in is missing, or can still grow. */
    predicate CanGrow(n: nat)
      reads this
    {
      DataPow2(CeilLog2(n)) < MAX_CAPACITY_POW2
    }

    /** The list fits in place, or there is room for the key, and for its list or for a larger storage. */
    ghost predicate Easy(key: Pubkey, n: nat)
      requires Valid()
      reads this, index.mmap, index.count, Maps(data), Counters(data)
    {
      || InPlace(Stored(env, View()), key, n)
      || (Room(env, View(), key) && (IsRoomy(n) || (env.maxSearch >= 2 && CanGrow(n))))
    }

    /** There is no room for the key, and no larger index. */
    ghost predicate Doomed(key: Pubkey)
      requires Valid()
      reads this, index.mmap, index.count, Maps(data), Counters(data)
    {
      !Room(env, View(), key) && index.capacityPow2 == MAX_CAPACITY_POW2
    }

    lemma SlackLeft(d: nat)
      requires Separate(index, data)
      ensures index.capacityPow2 <= MAX_CAPACITY_POW2 && Slack(index.capacityPow2, DataPow2(d)) >= 0
    {
    }

    /** One round of an insert: a write that succeeds, or the growth that its error asks for. */
    method InsertRound(key: Pubkey, slots: seq<T>, refCount: nat) returns (r: Round, outcome: Outcome)
      requires Valid() && reallocated.Idle()
      modifies this`index, this`random, this`data, reallocated, Objects()
      ensures Valid() && reallocated.Idle() && index.count == old(index.count) && fresh(Objects() - old(Objects()))
      ensures r.Done? <==> outcome.Ok?
      ensures r.Done? ==> old(Room(env, View(), key))
      ensures !r.Done? ==> !old(InPlace(Stored(env, View()), key, |slots|))
      ensures r.Done? ==> Stored(env, View()) == old(Stored(env, View()))[key := Value(slots, refCount)]
      ensures !r.Done? ==> Touched(old(Stored(env, View())), Stored(env, View()), key, refCount)
      ensures Leaks(env, View()) == old(Leaks(env, View())) + if r.Done? && Leaky(old(Stored(env, View())), key, slots) then 1 else 0
      ensures outcome.Err? && outcome.error.IndexNoSpace? ==>
                && !old(Room(env, View(), key)) && data == old(data)
                && (r.Grown? ==> NextLarger(env, Stored(env, View()).Keys, old(index.capacityPow2), index.capacityPow2))
                && !old(Calm(env, Stored(env, View()), Leaks(env, View()), key))
      ensures outcome.Err? && outcome.error.DataNoSpace? ==>
                var best := CeilLog2(|slots|);
                && index == old(index) && (Room(env, View(), key) <==> old(Room(env, View(), key)))
                && (r.Grown? <==> NextPow2(old(DataPow2(best))) <= MAX_CAPACITY_POW2)
                && (best < |old(data)| ==> !Roomy(old(Views(data)[best]), env.maxSearch))
                && (r.Grown? ==> best < |data| && DataPow2(best) == NextPow2(old(DataPow2(best))))
                && (r.Grown? && env.maxSearch >= 2 ==> Roomy(Views(data)[best], env.maxSearch))
                && (old(Calm(env, Stored(env, View()), Leaks(env, View()), key)) ==> best >= |old(data)|)
      ensures r.Failed? ==> Stuck(key, |slots|)
    {
      hide StateOk, Stored, Leaks, AllCounted, Counted, WindowFull, Separate, CeilLog2, NextPow2, Views, Calm, Cramped;
      hide KeysProbed, WithCount, Crowded, NoCell, Roomy, InPlace, NextLarger;
      outcome := TryWrite(key, slots, refCount);
      if outcome.Ok? {
        r := Done;
      } else if outcome.error.DataNoSpace? {
        var ok := GrowDataNow(outcome.error.dataIndex, outcome.error.pow2);
        r := if ok then Grown else Failed;
        NextPow2Limit(outcome.error.pow2);
      } else {
        var ok := GrowIndexNow();
        r := if ok then Grown else Failed;
      }
    }

    /**
      Writes a value, growing whatever is full until the write succeeds or growth is stuck. If the
      index has room for the key, no growth is needed for a data storage with room and at most one
      for a data storage that can grow; also if there are few keys and leaked cells. If the index
      has no room and is at the largest capacity, the write never succeeds.
     */
    method Insert(key: Pubkey, slots: seq<T>, refCount: nat) returns (ok: bool, ghost grows: nat)
      requires Valid() && reallocated.Idle()
      modifies this`index, this`random, this`data, reallocated, Objects()
      ensures Valid() && reallocated.Idle() && index.count == old(index.count) && fresh(Objects() - old(Objects()))
      ensures ok ==> Stored(env, View()) == old(Stored(env, View()))[key := Value(slots, refCount)]
      ensures !ok ==> Touched(old(Stored(env, View())), Stored(env, View()), key, refCount)
      ensures Leaks(env, View()) == old(Leaks(env, View())) + if ok && Leaky(old(Stored(env, View())), key, slots) then 1 else 0
      ensures !ok ==> Stuck(key, |slots|)
      ensures old(Easy(key, |slots|)) ==> ok && grows <= 1
      ensures old(Easy(key, |slots|)) && old(IsRoomy(|slots|) || InPlace(Stored(env, View()), key, |slots|)) ==> grows == 0
      ensures old(Doomed(key)) ==> !ok
      ensures old(Calm(env, Stored(env, View()), Leaks(env, View()), key)) ==> ok && grows <= 1
    {
      hide StateOk, Stored, Leaks, AllCounted, Counted, Roomy, CeilLog2, WithCount, Leaky;
      hide Room, Separate, Objects, Calm, Stuck, Reach, InPlace, MayJam;
      ghost var before, leaks := Stored(env, View()), Leaks(env, View());
      ghost var calm := Calm(env, before, leaks, key);
      ghost var room, ready, inPlace := Room(env, View(), key), IsRoomy(|slots|), InPlace(before, key, |slots|);
      ghost var doomed := Doomed(key);
      ghost var easy := env.maxSearch >= 2 && room && CanGrow(|slots|);
      grows := 0;
      while true
        invariant Valid() && reallocated.Idle() && index.count == old(index.count) && fresh(Objects() - old(Objects()))
        invariant Touched(before, Stored(env, View()), key, refCount) && Leaks(env, View()) == leaks
        invariant room || doomed ==> Room(env, View(), key) == room
        invariant doomed ==> index.capacityPow2 == MAX_CAPACITY_POW2
        invariant room && ready ==> grows == 0 && IsRoomy(|slots|)
        invariant inPlace ==> grows == 0 && InPlace(Stored(env, View()), key, |slots|)
        invariant easy ==> grows <= 1
        invariant calm ==> grows <= 1 && Calm(env, Stored(env, View()), leaks, key)
        invariant calm && grows == 1 ==> CeilLog2(|slots|) < |data|
        invariant easy && grows == 0 ==> CanGrow(|slots|)
        invariant easy && grows == 1 ==> IsRoomy(|slots|)
        decreases Slack(index.capacityPow2, DataPow2(CeilLog2(|slots|)))
      {
        ghost var m := Stored(env, View());
        ghost var objects := Objects();
        TouchedThenWritten(before, m, key, refCount, slots);
        label Round:
        var r, outcome := InsertRound(key, slots, refCount);
        forall o | o in Objects() && o !in old(Objects())
          ensures fresh(o)
        {
          assert o in objects || fresh@Round(o);
        }
        if r.Done? {
          return true, grows;
        }
        SlackLeft(CeilLog2(|slots|));
        TouchedTwice(before, m, Stored(env, View()), key, refCount);
        TouchedCalm(env, m, Stored(env, View()), key, refCount, leaks);
        grows := grows + 1;
        if r.Failed? {
          return false, grows;
        }
      }
    }

    /** Replaces a key's value by what a function makes of it; nothing means that the key is deleted. */
    method Update(key: Pubkey, updatefn: Option<Value<T>> -> Option<Value<T>>)
      returns (ok: bool, ghost value: Option<Value<T>>)
      requires Valid() && reallocated.Idle()
      modifies this`index, this`random, this`data, reallocated, Objects()
      ensures Valid() && reallocated.Idle() && index.count == old(index.count) && fresh(Objects() - old(Objects()))
      ensures value.Some? ==> var n := |value.value.slots|; old(Easy(key, n)) ==> ok
      ensures value.Some? && old(Doomed(key)) ==> !ok
      ensures value == updatefn(Lookup(old(Stored(env, View())), key))
      ensures ok ==> Stored(env, View()) == Changed(old(Stored(env, View())), key, value)
      ensures !ok ==>
                && value.Some? && Touched(old(Stored(env, View())), Stored(env, View()), key, value.value.refCount)
                && Stuck(key, |value.value.slots|)
      ensures Leaks(env, View()) == old(Leaks(env, View())) + if ok && ChangeLeaks(old(Stored(env, View())), key, value) then 1 else 0
      ensures old(Calm(env, Stored(env, View()), Leaks(env, View()), key)) ==> ok
    {
      hide StateOk, Stored, Leaks, AllCounted, Counted, Roomy, CeilLog2, Touched, Leaky, Separate, Calm, Stuck, Easy, Doomed;
      var current := ReadValue(key);
      var update := updatefn(current);
      value := update;
      if update.None? {
        DeleteKey(key);
        ok := true;
      } else {
        ghost var grows;
        ok, grows := Insert(key, update.value.slots, update.value.refCount);
      }
    }

    /** Adds the item in cell i of the index, if there is one and its key is in the range. */
    method AddItem(items: seq<BucketItem<T>>, i: nat, range: Option<KeyRange>, ghost s: State<T>) returns (r: seq<BucketItem<T>>)
      requires Valid() && View() == s && i < index.mmap.Length && UniqueKeys(s.index)
      requires Lists(items, Seen(Stored(env, s), s.index, i), range)
      requires Stored(env, s).Keys == Entries(s.index).Keys && items == Listing(Stored(env, s), s.index, i, range)
      ensures Valid() && View() == s && Lists(r, Seen(Stored(env, s), s.index, i + 1), range)
      ensures r == Listing(Stored(env, s), s.index, i + 1, range)
    {
      hide StateOk, Stored, AllCounted, Counted, EntryOk, Entries, Lists, UniqueKeys, Prefix, Seen, Selects;
      ghost var m, t := Stored(env, s), s.index;
      KeysStored(env, s);
      SeenStep(m, t, i);
      r := items;
      if !index.IsFree(i) {
        EntryFacts(env, s, i);
        var key := index.mmap[i].item.key;
        if Selects(range, key) {
          var value := ReadEntry(i);
          ListsAdd(items, Seen(m, t, i), range, BucketItem(key, value.refCount, value.slots));
          r := items + [BucketItem(key, value.refCount, value.slots)];
        } else {
          ListsSkip(items, Seen(m, t, i), range, key, m[key]);
        }
      }
    }

    /** The items whose keys are in the range, read off the index from end to end. */
    method ItemsInRange(range: Option<KeyRange>) returns (items: seq<BucketItem<T>>)
      requires Valid()
      ensures Lists(items, Stored(env, View()), range)
      ensures UniqueKeys(index.View()) && Stored(env, View()).Keys == Entries(index.View()).Keys
      ensures items == Listing(Stored(env, View()), index.View(), |index.View().cells|, range)
    {
      hide StateOk, Stored, AllCounted, Counted, Entries, Lists, UniqueKeys, Prefix, Seen, Views, IndexOk;
      ghost var s := View();
      SeenFirst(env, s, range);
      items := [];
      var i := 0;
      while i < index.Capacity()
        invariant 0 <= i <= index.Capacity() && Valid() && View() == s
        invariant Lists(items, Seen(Stored(env, s), s.index, i), range)
        invariant items == Listing(Stored(env, s), s.index, i, range)
      {
        items := AddItem(items, i, range, s);
        i := i + 1;
      }
    }
  }
}
