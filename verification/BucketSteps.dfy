/**
  A bucket as a state machine over values: its index table, its random and its data tables. Every
  step that a write, a delete or a resize takes is shown to keep the invariant, and its effect on
  the stored values and on the number of leaked cells is given.
 */
module BucketSteps {
  import opened Arithmetic
  import opened Storage
  import opened IndexEntries
  import opened IndexOps
  import opened BucketState

  datatype State<+T> = State(index: Table<IndexEntry>, random: nat, data: Data<T>)

  /** The invariant of a bucket. */
  ghost predicate StateOk<T>(env: Env, s: State<T>) {
    && IndexOk(env, s.index, s.random)
    && EntriesOk(env, Entries(s.index), s.data)
    && DataOk(env, Entries(s.index), s.data, LeakCount(env, Entries(s.index), s.data))
  }

  /** What the bucket stores: the plain map it stands for. */
  ghost function Stored<T>(env: Env, s: State<T>): (m: map<Pubkey, Value<T>>)
    requires StateOk(env, s)
  {
    Contents(env, Entries(s.index), s.data)
  }

  /** The number of occupied data cells that belong to no key. */
  ghost function Leaks<T>(env: Env, s: State<T>): (n: nat)
    requires StateOk(env, s)
  {
    LeakCount(env, Entries(s.index), s.data)
  }

  /** The entry in an occupied index cell. */
  function EntryAt<T>(s: State<T>, p: nat): (e: IndexEntry)
    requires s.index.Occupied(p)
  {
    s.index.cells[p].item
  }

  function SetEntry<T>(s: State<T>, p: nat, e: IndexEntry): (r: State<T>)
    requires p < |s.index.cells|
  {
    s.(index := s.index.(cells := s.index.cells[p := Cell(s.index.cells[p].lock, e)]))
  }

  /** From what an update does to entries and data to what it does to the state. */
  lemma Conclude<T>(env: Env, s: State<T>, entries: map<Pubkey, IndexEntry>, leaks: nat)
    requires IndexOk(env, s.index, s.random) && Entries(s.index) == entries
    requires DataOk(env, entries, s.data, leaks)
    ensures EntriesOk(env, entries, s.data) && StateOk(env, s)
    ensures Stored(env, s) == Contents(env, entries, s.data) && Leaks(env, s) == leaks
  {
    LeakCountIs(env, entries, s.data, leaks);
  }

  /** Every occupied index cell stands for one stored key, and its entry is backed by its own data cell. */
  lemma EntryFacts<T>(env: Env, s: State<T>, p: nat)
    requires StateOk(env, s) && s.index.Occupied(p)
    ensures var e := EntryAt(s, p);
            && EntryOk(env, e, s.data) && e.key in Stored(env, s)
            && s.index.cells[p].lock == KeyUid(env, e.key)
            && Stored(env, s)[e.key] == Value(ReadSlots(env, e, s.data), e.refCount)
  {
    hide DataOk;
    var e := EntryAt(s, p);
    StoredAt(env, Entries(s.index), s.data, Leaks(env, s), e.key);
  }

  lemma KeysStored<T>(env: Env, s: State<T>)
    requires StateOk(env, s)
    ensures UniqueKeys(s.index) && Stored(env, s).Keys == Entries(s.index).Keys
    ensures |Stored(env, s)| == |s.index.Used()|
  {
    EntriesSize(s.index);
    assert |Stored(env, s)| == |Stored(env, s).Keys|;
    assert |Entries(s.index)| == |Entries(s.index).Keys|;
  }

  lemma TableSized<T>(env: Env, s: State<T>, d: nat)
    requires StateOk(env, s) && d < |s.data|
    ensures s.data[d].pow2 >= DEFAULT_CAPACITY_POW2
  {
    assert TableOk(s.data[d], Pow2(d));
  }

  lemma KeysCounted<T>(env: Env, s: State<T>)
    requires StateOk(env, s)
    ensures IndexOk(env, s.index, s.random) && UniqueKeys(s.index) && |Entries(s.index)| == |Stored(env, s)|
  {
    KeysStored(env, s);
    EntriesSize(s.index);
  }

  lemma KeysIndexed<T>(env: Env, s: State<T>)
    requires StateOk(env, s)
    ensures IndexOk(env, s.index, s.random) && UniqueKeys(s.index) && Entries(s.index).Keys == Stored(env, s).Keys
  {
    KeysStored(env, s);
  }

  /** An empty index and no data stand for the empty map. */
  lemma Initial<T>(env: Env, s: State<T>)
    requires s.index.Sized() && s.index.Used() == {} && s.data == []
    ensures StateOk(env, s) && Stored(env, s) == map[] && Leaks(env, s) == 0
  {
    assert forall p: nat :: s.index.Occupied(p) ==> p in s.index.Used();
    assert KeySet(s.index) == {};
    assert Entries(s.index) == map[];
    assert UsedSites(s.data) == {};
  }

  /** Taking a free cell in its window for a new key. */
  lemma CreateStep<T>(env: Env, s: State<T>, p: nat, key: Pubkey)
    requires StateOk(env, s) && key !in Stored(env, s) && s.data != []
    requires InWindow(env, s.index.pow2, s.random, key, p) && !s.index.Occupied(p)
    ensures p < |s.index.cells|
    ensures var s' := s.(index := SetIndexCell(s.index, p, Cell(KeyUid(env, key), InitEntry(key))));
            && StateOk(env, s')
            && Stored(env, s') == Stored(env, s)[key := Value([], 0)] && Leaks(env, s') == Leaks(env, s)
  {
    hide DataOk, Contents, UniqueKeys, LeakCount;
    var entries, leaks := Entries(s.index), Leaks(env, s);
    IndexAdd(env, s.index, s.random, p, InitEntry(key));
    Create(env, entries, s.data, leaks, key);
    Conclude(env, s.(index := SetIndexCell(s.index, p, Cell(KeyUid(env, key), InitEntry(key)))), entries[key := InitEntry(key)], leaks);
  }

  /** The stored keys that lie in a key's probe window. */
  ghost function KeysProbed<T>(env: Env, s: State<T>, key: Pubkey): (keys: set<Pubkey>)
    requires s.index.Sized()
  {
    ProbedKeys(s.index, IndexStart(env, s.index.pow2, key, s.random), env.maxSearch)
  }

  /** A full window means that min(maxSearch, capacity) distinct stored keys lie in it. */
  lemma NoRoom<T>(env: Env, s: State<T>, key: Pubkey)
    requires StateOk(env, s) && WindowFull(s.index, IndexStart(env, s.index.pow2, key, s.random), env.maxSearch)
    ensures KeysProbed(env, s, key) <= Stored(env, s).Keys
    ensures Reach(env, s.index.pow2) <= |KeysProbed(env, s, key)| <= |Stored(env, s)|
  {
    FullOfKeys(env, s.index, IndexStart(env, s.index.pow2, key, s.random));
    KeysStored(env, s);
    EntriesSize(s.index);
  }

  /** Setting the reference count of a stored key. */
  lemma CountStep<T>(env: Env, s: State<T>, p: nat, refCount: nat)
    requires StateOk(env, s) && s.index.Occupied(p)
    ensures var e := EntryAt(s, p); var s' := SetEntry(s, p, e.(refCount := refCount));
            && StateOk(env, s') && e.key in Stored(env, s)
            && Stored(env, s') == Stored(env, s)[e.key := Stored(env, s)[e.key].(refCount := refCount)]
            && Leaks(env, s') == Leaks(env, s)
  {
    hide DataOk, Contents, UniqueKeys, LeakCount;
    var e, entries, leaks := EntryAt(s, p), Entries(s.index), Leaks(env, s);
    IndexRewrite(env, s.index, s.random, p, e.(refCount := refCount));
    SetCount(env, entries, s.data, leaks, e.key, refCount);
    Conclude(env, SetEntry(s, p, e.(refCount := refCount)), entries[e.key := e.(refCount := refCount)], leaks);
  }

  /** Overwriting a list in place; a cell is leaked exactly when the new list is empty. */
  lemma OverwriteStep<T>(env: Env, s: State<T>, p: nat, slots: seq<T>)
    requires StateOk(env, s) && s.index.Occupied(p)
    requires EntryAt(s, p).numSlots > 0 && CeilLog2(|slots|) == EntryAt(s, p).DataBucketIx()
    ensures EntryOk(env, EntryAt(s, p), s.data)
    ensures var e := EntryAt(s, p);
            var s' := SetEntry(s, p, e.(numSlots := |slots|)).(data := Overwritten(env, e, s.data, slots));
            && StateOk(env, s')
            && Stored(env, s') == Stored(env, s)[e.key := Value(slots, e.refCount)]
            && Leaks(env, s') == Leaks(env, s) + if slots == [] then 1 else 0
  {
    hide DataOk, Contents, UniqueKeys, LeakCount, EntriesOk, Overwritten;
    EntryFacts(env, s, p);
    var e, entries, leaks := EntryAt(s, p), Entries(s.index), Leaks(env, s);
    var e' := e.(numSlots := |slots|);
    IndexRewrite(env, s.index, s.random, p, e');
    Overwrite(env, entries, s.data, leaks, e', slots);
    Conclude(env, SetEntry(s, p, e').(data := Overwritten(env, e, s.data, slots)), entries[e.key := e'],
             leaks + if slots == [] then 1 else 0);
  }

  /** The data after a list has moved to another cell: the old cell is free, the new one taken. */
  function Relocated<T>(env: Env, e: IndexEntry, data: Data<T>, site: Site, slots: seq<T>): (r: Data<T>)
    requires EntryOk(env, e, data) && InRange(site, data)
  {
    var data1 := Released(env, e, data);
    if slots == [] then data1
    else SetCell(data1, site, Cell(KeyUid(env, e.key), Overlay(slots, CellAt(site, data1).item)))
  }

  lemma ReleasedKeeps<T>(env: Env, e: IndexEntry, data: Data<T>, site: Site)
    requires EntryOk(env, e, data) && InRange(site, data) && CellAt(site, data).lock == UID_UNLOCKED
    ensures var data1 := Released(env, e, data);
            && InRange(site, data1) && CellAt(site, data1) == CellAt(site, data)
            && |data1| == |data| && data1[site.d].pow2 == data[site.d].pow2
  {
  }

  function MovedEntry(e: IndexEntry, ix: nat, pow2: nat, numSlots: nat): (r: IndexEntry)
    requires ix < OFFSET_RANGE && pow2 < 256
    ensures r.Offset() == ix && r.CreatedPow2() == pow2 && r.key == e.key
    ensures r.refCount == e.refCount && r.numSlots == numSlots
  {
    e.SetOffset(ix).SetCreatedPow2(pow2).(numSlots := numSlots)
  }

  /** Every position in a data table can be packed into an entry. */
  lemma OffsetFits<T>(t: Table<T>, ix: nat)
    requires t.Sized() && ix < |t.cells|
    ensures ix < OFFSET_RANGE && t.pow2 < 256
  {
    Pow2Monotone(t.pow2, MAX_CAPACITY_POW2);
    Pow2Of56();
  }

  /** Moving a list, or a key without one, to a free cell of the best-fitting table. */
  lemma MoveStep<T>(env: Env, s: State<T>, p: nat, ix: nat, slots: seq<T>)
    requires StateOk(env, s) && s.index.Occupied(p)
    requires CeilLog2(|slots|) < |s.data| && s.data[CeilLog2(|slots|)].Sized()
    requires InRange(Site(CeilLog2(|slots|), ix), s.data) && !s.data[CeilLog2(|slots|)].Occupied(ix)
    ensures EntryOk(env, EntryAt(s, p), s.data) && ix < OFFSET_RANGE && s.data[CeilLog2(|slots|)].pow2 < 256
    ensures var e := EntryAt(s, p); var best := CeilLog2(|slots|);
            var s' := SetEntry(s, p, MovedEntry(e, ix, s.data[best].pow2, |slots|))
                        .(data := Relocated(env, e, s.data, Site(best, ix), slots));
            && StateOk(env, s')
            && Stored(env, s') == Stored(env, s)[e.key := Value(slots, e.refCount)]
            && Leaks(env, s') == Leaks(env, s)
  {
    hide DataOk, Contents, UniqueKeys, LeakCount, EntriesOk;
    EntryFacts(env, s, p);
    var e, entries, leaks, best := EntryAt(s, p), Entries(s.index), Leaks(env, s), CeilLog2(|slots|);
    OffsetFits(s.data[best], ix);
    var e' := MovedEntry(e, ix, s.data[best].pow2, |slots|);
    ReleasedKeeps(env, e, s.data, Site(best, ix));
    IndexRewrite(env, s.index, s.random, p, e');
    Move(env, entries, s.data, leaks, e', ix, slots);
    Conclude(env, SetEntry(s, p, e').(data := Relocated(env, e, s.data, Site(best, ix), slots)), entries[e.key := e'], leaks);
  }

  /** Deleting a key. */
  lemma DeleteStep<T>(env: Env, s: State<T>, p: nat)
    requires StateOk(env, s) && s.index.Occupied(p)
    ensures EntryOk(env, EntryAt(s, p), s.data)
    ensures var e := EntryAt(s, p);
            var s' := State(SetIndexCell(s.index, p, Cell(UID_UNLOCKED, e)), s.random, Released(env, e, s.data));
            && StateOk(env, s')
            && Stored(env, s') == Stored(env, s) - {e.key}
            && Leaks(env, s') == Leaks(env, s)
  {
    hide DataOk, Contents, UniqueKeys, LeakCount, EntriesOk;
    EntryFacts(env, s, p);
    var e, entries, leaks := EntryAt(s, p), Entries(s.index), Leaks(env, s);
    IndexRemove(env, s.index, s.random, p);
    Delete(env, entries, s.data, leaks, e.key);
    Conclude(env, State(SetIndexCell(s.index, p, Cell(UID_UNLOCKED, e)), s.random, Released(env, e, s.data)), entries - {e.key}, leaks);
  }

  /** Swapping in a re-built index. */
  lemma ReindexStep<T>(env: Env, s: State<T>, index: Table<IndexEntry>, random: nat)
    requires StateOk(env, s) && IndexOk(env, index, random) && Entries(index) == Entries(s.index)
    ensures var s' := State(index, random, s.data);
            StateOk(env, s') && Stored(env, s') == Stored(env, s) && Leaks(env, s') == Leaks(env, s)
    ensures |index.Used()| == |s.index.Used()|
  {
    hide DataOk, Contents, UniqueKeys, LeakCount, EntriesOk;
    Conclude(env, State(index, random, s.data), Entries(s.index), Leaks(env, s));
    EntriesSize(index);
    EntriesSize(s.index);
  }

  /** Swapping in a resized copy of one data table. */
  lemma ResizeStep<T>(env: Env, s: State<T>, d: nat, pow2: nat)
    requires StateOk(env, s) && d < |s.data| && s.data[d].pow2 <= pow2 <= MAX_CAPACITY_POW2
    ensures var s' := s.(data := GrowTable(s.data, d, pow2));
            StateOk(env, s') && Stored(env, s') == Stored(env, s) && Leaks(env, s') == Leaks(env, s)
  {
    hide DataOk, Contents, UniqueKeys, LeakCount, EntriesOk;
    Grow(env, Entries(s.index), s.data, Leaks(env, s), d, pow2);
    Conclude(env, s.(data := GrowTable(s.data, d, pow2)), Entries(s.index), Leaks(env, s));
  }

  /** Adding a vacant data table. */
  lemma AppendStep<T>(env: Env, s: State<T>, pow2: nat)
    requires StateOk(env, s) && DEFAULT_CAPACITY_POW2 <= pow2 <= MAX_CAPACITY_POW2
    ensures var s' := s.(data := s.data + [Vacant(pow2, [])]);
            StateOk(env, s') && Stored(env, s') == Stored(env, s) && Leaks(env, s') == Leaks(env, s)
  {
    hide DataOk, Contents, UniqueKeys, LeakCount, EntriesOk;
    Append(env, Entries(s.index), s.data, Leaks(env, s), pow2);
    Conclude(env, s.(data := s.data + [Vacant(pow2, [])]), Entries(s.index), Leaks(env, s));
  }

  // ---------------------------------------------------------------------------
  // Why one growth is enough

  /** Wherever a search begins, it meets a free cell. */
  ghost predicate Roomy<C>(t: Table<C>, maxSearch: nat) {
    forall pos :: !WindowFull(t, pos, maxSearch)
  }

  /** A table whose capacity has at least doubled has a free cell in every two neighbouring ones. */
  lemma ResizedRoomy<C>(t: Table<C>, pow2: nat, blank: C, maxSearch: nat)
    requires t.Sized() && t.pow2 < pow2 && maxSearch >= 2
    ensures Roomy(Resized(t, pow2, blank), maxSearch)
  {
    var r := Resized(t, pow2, blank);
    assert |r.cells| == 2 * Pow2(pow2 - 1);
    hide Resized, Pow2, Spread;
    forall pos: nat | pos < |r.cells|
      ensures !WindowFull(r, pos, maxSearch)
    {
      var p := OddNeighbour(pos, Pow2(pow2 - 1));
      if r.Occupied(p) {
        OccupiedIsEven(t, pow2, blank, p);
      }
    }
  }

  lemma OddNeighbour(pos: nat, half: nat) returns (p: nat)
    requires pos < 2 * half
    ensures p < 2 * half && p % 2 == 1 && Distance(pos, p, 2 * half) <= 1
  {
    p := if pos % 2 == 1 then pos else pos + 1;
  }

  lemma OccupiedIsEven<C>(t: Table<C>, pow2: nat, blank: C, p: nat)
    requires t.Sized() && t.pow2 < pow2 && Resized(t, pow2, blank).Occupied(p)
    ensures p % 2 == 0
  {
    var origin := ResizedOrigin(t, pow2, blank, p);
    var half := Pow2(pow2 - t.pow2 - 1);
    assert Spread(t.pow2, pow2) == 2 * half;
    hide Resized, Spread, Pow2;
    DoubleFactor(origin, half);
  }

  lemma VacantRoomy<C>(pow2: nat, blank: C, maxSearch: nat)
    requires maxSearch >= 1
    ensures Roomy(Vacant(pow2, blank), maxSearch)
  {
    var t := Vacant(pow2, blank);
    forall pos: nat | pos < |t.cells|
      ensures !WindowFull(t, pos, maxSearch)
    {
      assert Distance(pos, pos, |t.cells|) == 0;
      assert !t.Occupied(pos);
    }
  }

  /** In a new index every window has a free cell. */
  lemma VacantCell(env: Env, pow2: nat, random: nat, key: Pubkey)
    ensures NoCell(env, Vacant(pow2, ZeroEntry()), random, key) <==> env.maxSearch == 0
  {
    if env.maxSearch >= 1 {
      VacantRoomy(pow2, ZeroEntry(), env.maxSearch);
    }
  }

  // ---------------------------------------------------------------------------
  // Why growing an index may not help

  /** One place in the index for all keys, whatever the random, and probes of two cells. */
  function AllCollide(): (env: Env) {
    Env((key: Pubkey) => key.low, (uid: nat, random: nat) => 0, 2)
  }

  /** If all keys collide no bucket, whatever the capacity of its index, stores three keys. */
  lemma NoThirdKey<T>(s: State<T>)
    requires StateOk(AllCollide(), s)
    ensures |Stored(AllCollide(), s)| <= 2
  {
    OneWindow(AllCollide(), s.index, s.random);
    KeysCounted(AllCollide(), s);
  }

  /** As many places as uids under the random 0, one for all keys under any other, and probes of two cells. */
  function CollideLater(): (env: Env) {
    Env((key: Pubkey) => key.low, (uid: nat, random: nat) => if random == 0 then uid else 0, 2)
  }

  lemma ThreeKeys() returns (t: Table<IndexEntry>)
    ensures t.pow2 == DEFAULT_CAPACITY_POW2 && IndexOk(CollideLater(), t, 0) && UniqueKeys(t) && |Entries(t)| == 3
  {
    t := Vacant(DEFAULT_CAPACITY_POW2, ZeroEntry());
    VacantIndex(CollideLater(), DEFAULT_CAPACITY_POW2, 0);
    hide Entries, UniqueKeys, CollideLater, Vacant, InWindow, Pow2, KeyUid, InitEntry;
    t := WithLow(t, 1);
    t := WithLow(t, 2);
    t := WithLow(t, 3);
  }

  /**
    An index of the smallest capacity that cannot be grown: three keys find room under its random,
    and there is no index for them, of any capacity, under any other random.
   */
  lemma CannotGrow() returns (t: Table<IndexEntry>)
    ensures t.pow2 == DEFAULT_CAPACITY_POW2 && IndexOk(CollideLater(), t, 0) && |Entries(t)| == 3
    ensures forall t', random :: random != 0 && IndexOk(CollideLater(), t', random) ==> Entries(t') != Entries(t)
  {
    hide Entries, UniqueKeys, InWindow;
    t := ThreeKeys();
    forall t', random | random != 0 && IndexOk(CollideLater(), t', random)
      ensures Entries(t') != Entries(t)
    {
      OneWindow(CollideLater(), t', random);
    }
  }

  lemma WithLow(t: Table<IndexEntry>, n: nat) returns (t': Table<IndexEntry>)
    requires t.pow2 == DEFAULT_CAPACITY_POW2 && IndexOk(CollideLater(), t, 0) && 0 < n < 32
    requires !t.Occupied(n) && Pubkey(0, n) !in Entries(t)
    ensures t'.pow2 == t.pow2 && IndexOk(CollideLater(), t', 0)
    ensures Entries(t') == Entries(t)[Pubkey(0, n) := InitEntry(Pubkey(0, n))]
    ensures forall p: nat :: p != n ==> t'.Occupied(p) == t.Occupied(p)
  {
    var env, e := CollideLater(), InitEntry(Pubkey(0, n));
    assert Pow2(5) == 32;
    IndexAdd(env, t, 0, n, e);
    t' := SetIndexCell(t, n, Cell(KeyUid(env, e.key), e));
  }

  // ---------------------------------------------------------------------------
  // Ownership and accounting

  /**
    Two stored keys with slots never share a data cell, not even if their uids are equal, and each
    key's cell carries that key's uid.
   */
  lemma Ownership<T>(env: Env, s: State<T>, p: nat, q: nat)
    requires StateOk(env, s) && s.index.Occupied(p) && s.index.Occupied(q) && p != q
    requires EntryAt(s, p).numSlots > 0 && EntryAt(s, q).numSlots > 0
    ensures EntryOk(env, EntryAt(s, p), s.data) && EntryOk(env, EntryAt(s, q), s.data)
    ensures SiteOf(EntryAt(s, p), s.data) != SiteOf(EntryAt(s, q), s.data)
    ensures CellAt(SiteOf(EntryAt(s, p), s.data), s.data).lock == KeyUid(env, EntryAt(s, p).key)
  {
    EntryFacts(env, s, p);
    EntryFacts(env, s, q);
    OwnSites(env, Entries(s.index), s.data, Leaks(env, s), EntryAt(s, p).key, EntryAt(s, q).key);
  }

  lemma OwnSites<T>(env: Env, entries: map<Pubkey, IndexEntry>, data: Data<T>, leaks: nat, j: Pubkey, k: Pubkey)
    requires DataOk(env, entries, data, leaks) && j in entries && k in entries && j != k
    requires entries[j].numSlots > 0 && entries[k].numSlots > 0
    ensures SiteOf(entries[j], data) != SiteOf(entries[k], data)
  {
    var sites := Sites(env, entries, data);
    assert j in sites && k in sites;
  }

  /** The keys whose lists are stored in data table d. */
  ghost function KeysAt<T>(m: map<Pubkey, Value<T>>, d: nat): (s: set<Pubkey>) {
    set k | k in m && |m[k].slots| > 0 && CeilLog2(|m[k].slots|) == d
  }

  /**
    The accounting law: data table d has as many occupied cells as there are keys whose lists
    belong there, and table 0 has the leaked cells on top; the index has one cell per key.
   */
  lemma OccupiedCells<T>(env: Env, s: State<T>, d: nat)
    requires StateOk(env, s) && d < |s.data|
    ensures |s.data[d].Used()| == |KeysAt(Stored(env, s), d)| + if d == 0 then Leaks(env, s) else 0
    ensures |s.index.Used()| == |Stored(env, s)|
  {
    hide DataOk, EntriesOk, Contents, KeysAt, KeysIn;
    Accounting(env, Entries(s.index), s.data, Leaks(env, s), d);
    KeysStored(env, s);
    KeysAtIn(env, Entries(s.index), s.data, d);
  }

  /**
    Few enough keys and leaked cells that no window can be full, whatever the hashes and the random
    numbers: with the key to be written, no more than a probe of the smallest table visits.
   */
  ghost predicate Calm<T>(env: Env, m: map<Pubkey, Value<T>>, leaks: nat, key: Pubkey) {
    |m - {key}| + leaks < Reach(env, DEFAULT_CAPACITY_POW2)
  }

  /** A full window in the data table that a key's list is to be moved to. */
  lemma CrowdedTable<T>(env: Env, s: State<T>, d: nat, pos: nat, key: Pubkey)
    requires StateOk(env, s) && d < |s.data| && WindowFull(s.data[d], pos, env.maxSearch)
    requires key !in KeysAt(Stored(env, s), d)
    ensures !Calm(env, Stored(env, s), Leaks(env, s), key)
  {
    assert TableOk(s.data[d], Pow2(d));
    OccupiedCells(env, s, d);
    hide StateOk, Stored, Leaks, CeilLog2;
    FullWindow(env, s.data[d], pos);
    ReachGrows(env, DEFAULT_CAPACITY_POW2, s.data[d].pow2);
    var m := Stored(env, s);
    SubsetSize(KeysAt(m, d), (m - {key}).Keys);
    assert |m - {key}| == |(m - {key}).Keys|;
  }

  lemma KeysAtIn<T>(env: Env, entries: map<Pubkey, IndexEntry>, data: Data<T>, d: nat)
    requires EntriesOk(env, entries, data)
    ensures KeysAt(Contents(env, entries, data), d) == KeysIn(entries, d)
  {
  }
}
