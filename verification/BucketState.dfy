/**
  The value of a bucket: the map of index entries together with the data tables. Data table d has
  cells for slot lists of up to 2^d slots. This module states what ties entries to data cells and
  proves that every kind of update keeps it, and what the update means for the stored values.
 */
module BucketState {
  import opened Arithmetic
  import opened Storage
  import opened IndexEntries

  datatype Value<+T> = Value(slots: seq<T>, refCount: nat)

  type Data<+T> = seq<Table<seq<T>>>

  /** A data cell: number of the table and position in it. */
  datatype Site = Site(d: nat, loc: nat)

  /** Data tables are well-sized, and no cell of table d holds more than 2^d slots. */
  ghost predicate TablesOk<T>(data: Data<T>) {
    forall d: nat :: d < |data| ==> TableOk(data[d], Pow2(d))
  }

  ghost predicate TableOk<T>(t: Table<seq<T>>, numElems: nat) {
    && t.Sized() && t.pow2 >= DEFAULT_CAPACITY_POW2
    && forall ix: nat :: ix < |t.cells| ==> |t.cells[ix].item| <= numElems
  }

  /** The data table an entry refers to exists and is no smaller than when the entry was placed. */
  predicate Placed<T>(e: IndexEntry, data: Data<T>) {
    e.DataBucketIx() < |data| && e.CreatedPow2() <= data[e.DataBucketIx()].pow2
  }

  function SiteOf<T>(e: IndexEntry, data: Data<T>): (s: Site)
    requires Placed(e, data)
    ensures s.d < |data|
  {
    Site(e.DataBucketIx(), e.DataLoc(data[e.DataBucketIx()].pow2))
  }

  predicate InRange<T>(s: Site, data: Data<T>) {
    s.d < |data| && s.loc < |data[s.d].cells|
  }

  function CellAt<T>(s: Site, data: Data<T>): (c: Cell<seq<T>>)
    requires InRange(s, data)
  {
    data[s.d].cells[s.loc]
  }

  /** The cell is in range, carries the given uid and holds at least n slots. */
  predicate Backs<T>(s: Site, data: Data<T>, uid: nat, n: nat) {
    InRange(s, data) && CellAt(s, data).lock == uid && n <= |CellAt(s, data).item|
  }

  predicate EntryOk<T>(env: Env, e: IndexEntry, data: Data<T>) {
    Placed(e, data) && (e.numSlots > 0 ==> Backs(SiteOf(e, data), data, KeyUid(env, e.key), e.numSlots))
  }

  ghost predicate EntriesOk<T>(env: Env, entries: map<Pubkey, IndexEntry>, data: Data<T>) {
    forall k :: k in entries ==> entries[k].key == k && EntryOk(env, entries[k], data)
  }

  /** The keys that have slots. */
  ghost function NonEmpty(entries: map<Pubkey, IndexEntry>): (s: set<Pubkey>) {
    set k | k in entries && entries[k].numSlots > 0
  }

  /** The cell that each non-empty key owns. */
  ghost function Sites<T>(env: Env, entries: map<Pubkey, IndexEntry>, data: Data<T>): (m: map<Pubkey, Site>)
    requires EntriesOk(env, entries, data)
    ensures m.Keys == NonEmpty(entries)
  {
    map k | k in NonEmpty(entries) :: SiteOf(entries[k], data)
  }

  ghost predicate Injective(m: map<Pubkey, Site>) {
    forall j, k :: j in m && k in m && m[j] == m[k] ==> j == k
  }

  ghost function UsedSites<T>(data: Data<T>): (s: set<Site>) {
    set d: nat, loc: nat | d < |data| && loc < |data[d].cells| && data[d].Occupied(loc) :: Site(d, loc)
  }

  /**
    No two keys own the same cell, and the occupied cells without an owner all lie in table 0 and
    number exactly `leaks`.
   */
  ghost predicate SitesOk(sites: map<Pubkey, Site>, used: set<Site>, leaks: nat) {
    && Injective(sites)
    && (forall s :: s in used - sites.Values ==> s.d == 0)
    && |used - sites.Values| == leaks
  }

  /**
    The bucket invariant: every non-empty key owns a cell that carries its uid and holds its slots,
    no two keys own the same cell even if their uids are the same, and the occupied cells without
    an owner all lie in table 0 and number exactly `leaks`.
   */
  ghost predicate DataOk<T>(env: Env, entries: map<Pubkey, IndexEntry>, data: Data<T>, leaks: nat) {
    && TablesOk(data)
    && EntriesOk(env, entries, data)
    && SitesOk(Sites(env, entries, data), UsedSites(data), leaks)
  }

  /** The number of occupied data cells that no key owns. */
  ghost function LeakCount<T>(env: Env, entries: map<Pubkey, IndexEntry>, data: Data<T>): (n: nat)
    requires EntriesOk(env, entries, data)
  {
    |UsedSites(data) - Sites(env, entries, data).Values|
  }

  lemma LeakCountIs<T>(env: Env, entries: map<Pubkey, IndexEntry>, data: Data<T>, leaks: nat)
    requires DataOk(env, entries, data, leaks)
    ensures EntriesOk(env, entries, data) && LeakCount(env, entries, data) == leaks
  {
  }

  function ReadSlots<T>(env: Env, e: IndexEntry, data: Data<T>): (r: seq<T>)
    requires EntryOk(env, e, data)
    ensures |r| == e.numSlots
  {
    if e.numSlots > 0 then CellAt(SiteOf(e, data), data).item[..e.numSlots] else []
  }

  /** What the bucket stores: for every key its slot list and its reference count. */
  ghost function Contents<T>(env: Env, entries: map<Pubkey, IndexEntry>, data: Data<T>): (m: map<Pubkey, Value<T>>)
    requires EntriesOk(env, entries, data)
    ensures m.Keys == entries.Keys
  {
    map k | k in entries :: Value(ReadSlots(env, entries[k], data), entries[k].refCount)
  }

  lemma StoredAt<T>(env: Env, entries: map<Pubkey, IndexEntry>, data: Data<T>, leaks: nat, key: Pubkey)
    requires DataOk(env, entries, data, leaks) && key in entries
    ensures entries[key].key == key && EntryOk(env, entries[key], data) && key in Contents(env, entries, data)
    ensures Contents(env, entries, data)[key] == Value(ReadSlots(env, entries[key], data), entries[key].refCount)
  {
  }

  function SetCell<T>(data: Data<T>, s: Site, c: Cell<seq<T>>): (r: Data<T>)
    requires InRange(s, data)
  {
    data[s.d := data[s.d].(cells := data[s.d].cells[s.loc := c])]
  }

  // ---------------------------------------------------------------------------
  // Updates of one entry that leave the data alone

  /** All entries but e's stay as they are, and where they are, in the data' tables. */
  ghost predicate Undisturbed<T>(env: Env, entries: map<Pubkey, IndexEntry>, data: Data<T>, data': Data<T>, key: Pubkey)
    requires EntriesOk(env, entries, data)
  {
    forall k :: k in entries && k != key ==>
      && EntryOk(env, entries[k], data')
      && SiteOf(entries[k], data') == SiteOf(entries[k], data)
      && ReadSlots(env, entries[k], data') == ReadSlots(env, entries[k], data)
  }

  lemma FrameEntries<T>(env: Env, entries: map<Pubkey, IndexEntry>, data: Data<T>, data': Data<T>, e: IndexEntry)
    requires EntriesOk(env, entries, data) && Undisturbed(env, entries, data, data', e.key) && EntryOk(env, e, data')
    ensures EntriesOk(env, entries[e.key := e], data')
  {
  }

  lemma FrameNonEmpty(entries: map<Pubkey, IndexEntry>, e: IndexEntry)
    ensures NonEmpty(entries[e.key := e])
         == if e.numSlots > 0 then NonEmpty(entries) + {e.key} else NonEmpty(entries) - {e.key}
  {
  }

  /** Setting one non-empty entry, where all others stay where they are, sets one site. */
  lemma FrameSites<T>(env: Env, entries: map<Pubkey, IndexEntry>, data: Data<T>, data': Data<T>, e: IndexEntry)
    requires EntriesOk(env, entries, data) && Undisturbed(env, entries, data, data', e.key) && EntryOk(env, e, data')
    requires e.numSlots > 0
    ensures EntriesOk(env, entries[e.key := e], data')
    ensures Sites(env, entries[e.key := e], data') == Sites(env, entries, data)[e.key := SiteOf(e, data')]
  {
    FrameEntries(env, entries, data, data', e);
    FrameNonEmpty(entries, e);
    var sites, sites' := Sites(env, entries, data), Sites(env, entries[e.key := e], data');
    hide EntryOk, SiteOf, NonEmpty;
    forall k | k in sites'
      ensures sites'[k] == sites[e.key := SiteOf(e, data')][k]
    {
    }
  }

  /** Setting one empty entry, where all others stay where they are, removes one site. */
  lemma FrameSitesEmpty<T>(env: Env, entries: map<Pubkey, IndexEntry>, data: Data<T>, data': Data<T>, e: IndexEntry)
    requires EntriesOk(env, entries, data) && Undisturbed(env, entries, data, data', e.key) && EntryOk(env, e, data')
    requires e.numSlots == 0
    ensures EntriesOk(env, entries[e.key := e], data')
    ensures Sites(env, entries[e.key := e], data') == Sites(env, entries, data) - {e.key}
  {
    FrameEntries(env, entries, data, data', e);
    FrameNonEmpty(entries, e);
  }

  /** Setting one entry, where all others read the same, sets one value. */
  lemma FrameContents<T>(env: Env, entries: map<Pubkey, IndexEntry>, data: Data<T>, data': Data<T>, e: IndexEntry)
    requires EntriesOk(env, entries, data) && Undisturbed(env, entries, data, data', e.key) && EntryOk(env, e, data')
    ensures EntriesOk(env, entries[e.key := e], data')
    ensures Contents(env, entries[e.key := e], data')
         == Contents(env, entries, data)[e.key := Value(ReadSlots(env, e, data'), e.refCount)]
  {
    FrameEntries(env, entries, data, data', e);
  }

  /** The new entry owns the same cell as the old one, or none where the key owned none. */
  predicate SameSite<T>(env: Env, entries: map<Pubkey, IndexEntry>, data: Data<T>, e: IndexEntry)
    requires EntryOk(env, e, data)
  {
    if e.key in entries && entries[e.key].numSlots > 0
    then e.numSlots > 0 && Placed(entries[e.key], data) && SiteOf(e, data) == SiteOf(entries[e.key], data)
    else e.numSlots == 0
  }

  lemma SitesKept<T>(env: Env, entries: map<Pubkey, IndexEntry>, data: Data<T>, e: IndexEntry)
    requires EntriesOk(env, entries, data) && EntryOk(env, e, data) && SameSite(env, entries, data, e)
    ensures EntriesOk(env, entries[e.key := e], data)
    ensures Sites(env, entries[e.key := e], data) == Sites(env, entries, data)
  {
    if e.numSlots > 0 {
      FrameSites(env, entries, data, data, e);
    } else {
      FrameSitesEmpty(env, entries, data, data, e);
    }
  }

  /** Replacing an entry without changing which cell the key owns. */
  lemma RewriteEntry<T>(env: Env, entries: map<Pubkey, IndexEntry>, data: Data<T>, leaks: nat, e: IndexEntry)
    requires DataOk(env, entries, data, leaks)
    requires EntryOk(env, e, data) && SameSite(env, entries, data, e)
    ensures DataOk(env, entries[e.key := e], data, leaks)
    ensures Contents(env, entries[e.key := e], data)
         == Contents(env, entries, data)[e.key := Value(ReadSlots(env, e, data), e.refCount)]
  {
    SitesKept(env, entries, data, e);
    FrameContents(env, entries, data, data, e);
  }

  lemma SitesDropped<T>(env: Env, entries: map<Pubkey, IndexEntry>, data: Data<T>, key: Pubkey)
    requires EntriesOk(env, entries, data)
    requires key in entries && entries[key].numSlots == 0
    ensures EntriesOk(env, entries - {key}, data)
    ensures Sites(env, entries - {key}, data) == Sites(env, entries, data)
  {
  }

  lemma ContentsDropped<T>(env: Env, entries: map<Pubkey, IndexEntry>, data: Data<T>, key: Pubkey)
    requires EntriesOk(env, entries, data)
    ensures EntriesOk(env, entries - {key}, data)
    ensures Contents(env, entries - {key}, data) == Contents(env, entries, data) - {key}
  {
  }

  /** Dropping an entry that owns no cell. */
  lemma DropEntry<T>(env: Env, entries: map<Pubkey, IndexEntry>, data: Data<T>, leaks: nat, key: Pubkey)
    requires DataOk(env, entries, data, leaks)
    requires key in entries && entries[key].numSlots == 0
    ensures DataOk(env, entries - {key}, data, leaks)
    ensures Contents(env, entries - {key}, data) == Contents(env, entries, data) - {key}
  {
    SitesDropped(env, entries, data, key);
    ContentsDropped(env, entries, data, key);
  }

  // ---------------------------------------------------------------------------
  // Updates of one data cell together with one entry

  lemma SetCellTables<T>(data: Data<T>, s: Site, c: Cell<seq<T>>)
    requires TablesOk(data) && InRange(s, data) && |c.item| <= Pow2(s.d)
    ensures TablesOk(SetCell(data, s, c))
  {
  }

  lemma SetCellUsed<T>(data: Data<T>, s: Site, c: Cell<seq<T>>)
    requires InRange(s, data)
    ensures UsedSites(SetCell(data, s, c))
         == if c.lock != UID_UNLOCKED then UsedSites(data) + {s} else UsedSites(data) - {s}
  {
  }

  lemma UsedSite<T>(data: Data<T>, d: nat, loc: nat)
    ensures Site(d, loc) in UsedSites(data) <==> d < |data| && data[d].Occupied(loc)
  {
  }

  /** Every key but the given one keeps clear of cell s. */
  ghost predicate Clear<T>(env: Env, entries: map<Pubkey, IndexEntry>, data: Data<T>, key: Pubkey, s: Site)
    requires EntriesOk(env, entries, data)
  {
    forall k :: k in entries && k != key && entries[k].numSlots > 0 ==> SiteOf(entries[k], data) != s
  }

  lemma ClearIsUndisturbed<T>(env: Env, entries: map<Pubkey, IndexEntry>, data: Data<T>, key: Pubkey, s: Site, c: Cell<seq<T>>)
    requires EntriesOk(env, entries, data) && InRange(s, data) && Clear(env, entries, data, key, s)
    ensures Undisturbed(env, entries, data, SetCell(data, s, c), key)
  {
  }

  lemma ClearOfOwn<T>(env: Env, entries: map<Pubkey, IndexEntry>, data: Data<T>, key: Pubkey)
    requires EntriesOk(env, entries, data) && Injective(Sites(env, entries, data))
    requires key in entries && entries[key].numSlots > 0
    ensures Clear(env, entries, data, key, SiteOf(entries[key], data))
  {
    var sites := Sites(env, entries, data);
    forall k | k in entries && k != key && entries[k].numSlots > 0
      ensures SiteOf(entries[k], data) != SiteOf(entries[key], data)
    {
      assert k in sites && key in sites;
    }
  }

  lemma ClearOfFree<T>(env: Env, entries: map<Pubkey, IndexEntry>, data: Data<T>, key: Pubkey, s: Site)
    requires EntriesOk(env, entries, data) && InRange(s, data) && CellAt(s, data).lock == UID_UNLOCKED
    ensures Clear(env, entries, data, key, s)
  {
  }

  lemma OwnedIsUsed<T>(env: Env, entries: map<Pubkey, IndexEntry>, data: Data<T>, key: Pubkey)
    requires EntriesOk(env, entries, data)
    requires key in entries && entries[key].numSlots > 0
    ensures SiteOf(entries[key], data) in UsedSites(data)
  {
  }

  // ---------------------------------------------------------------------------
  // What an update does to the sites

  lemma SitesReleased(sites: map<Pubkey, Site>, used: set<Site>, leaks: nat, key: Pubkey)
    requires SitesOk(sites, used, leaks) && key in sites
    ensures SitesOk(sites - {key}, used - {sites[key]}, leaks)
  {
    ValuesWithout(sites, key);
    assert (used - {sites[key]}) - (sites - {key}).Values == used - sites.Values;
  }

  lemma SitesLeaked(sites: map<Pubkey, Site>, used: set<Site>, leaks: nat, key: Pubkey)
    requires SitesOk(sites, used, leaks) && key in sites && sites[key] in used && sites[key].d == 0
    ensures SitesOk(sites - {key}, used, leaks + 1)
  {
    ValuesWithout(sites, key);
    assert used - (sites - {key}).Values == (used - sites.Values) + {sites[key]};
  }

  lemma ValuesWithout(sites: map<Pubkey, Site>, key: Pubkey)
    requires Injective(sites) && key in sites
    ensures Injective(sites - {key})
    ensures (sites - {key}).Values == sites.Values - {sites[key]}
  {
    var rest := sites - {key};
    forall s | s in sites.Values && s != sites[key]
      ensures s in rest.Values
    {
      var k :| k in sites && sites[k] == s;
      assert k in rest && rest[k] == s;
    }
  }

  lemma ValuesWith(sites: map<Pubkey, Site>, key: Pubkey, s: Site)
    requires key !in sites
    ensures sites[key := s].Values == sites.Values + {s}
  {
    var sites' := sites[key := s];
    forall r | r in sites.Values
      ensures r in sites'.Values
    {
      var k :| k in sites && sites[k] == r;
      assert k in sites' && sites'[k] == r;
    }
    assert key in sites' && sites'[key] == s;
  }

  lemma InjectiveWith(sites: map<Pubkey, Site>, key: Pubkey, s: Site)
    requires Injective(sites) && key !in sites && s !in sites.Values
    ensures Injective(sites[key := s])
  {
  }

  lemma AddedToBoth(used: set<Site>, owned: set<Site>, s: Site)
    requires s !in used
    ensures (used + {s}) - (owned + {s}) == used - owned
  {
  }

  lemma SitesPlaced(sites: map<Pubkey, Site>, used: set<Site>, leaks: nat, key: Pubkey, s: Site)
    requires SitesOk(sites, used, leaks) && key !in sites && s !in used && sites.Values <= used
    ensures SitesOk(sites[key := s], used + {s}, leaks)
  {
    hide Injective;
    var unowned := used - sites.Values;
    InjectiveWith(sites, key, s);
    assert (used + {s}) - sites[key := s].Values == unowned by {
      ValuesWith(sites, key, s);
      AddedToBoth(used, sites.Values, s);
    }
  }

  lemma SitesAreUsed<T>(env: Env, entries: map<Pubkey, IndexEntry>, data: Data<T>)
    requires EntriesOk(env, entries, data)
    ensures Sites(env, entries, data).Values <= UsedSites(data)
  {
  }

  // ---------------------------------------------------------------------------
  // The three moves a write is made of

  /** Giving up the owned cell empties the key's list. */
  lemma Release<T>(env: Env, entries: map<Pubkey, IndexEntry>, data: Data<T>, leaks: nat, key: Pubkey)
    requires DataOk(env, entries, data, leaks)
    requires key in entries && entries[key].numSlots > 0
    ensures var s := SiteOf(entries[key], data);
            var e := InitEntry(key).(refCount := entries[key].refCount);
            var data' := SetCell(data, s, CellAt(s, data).(lock := UID_UNLOCKED));
            && DataOk(env, entries[key := e], data', leaks)
            && Contents(env, entries[key := e], data') == Contents(env, entries, data)[key := Value([], e.refCount)]
  {
    var s := SiteOf(entries[key], data);
    var c := CellAt(s, data).(lock := UID_UNLOCKED);
    var e := InitEntry(key).(refCount := entries[key].refCount);
    assert TableOk(data[s.d], Pow2(s.d));
    ClearOfOwn(env, entries, data, key);
    ClearIsUndisturbed(env, entries, data, key, s, c);
    SetCellTables(data, s, c);
    SetCellUsed(data, s, c);
    var data' := SetCell(data, s, c);
    FrameSitesEmpty(env, entries, data, data', e);
    FrameContents(env, entries, data, data', e);
    SitesReleased(Sites(env, entries, data), UsedSites(data), leaks, key);
  }

  /** A key without slots takes a free cell of the best-fitting table. */
  lemma Place<T>(env: Env, entries: map<Pubkey, IndexEntry>, data: Data<T>, leaks: nat, e: IndexEntry, ix: nat, slots: seq<T>)
    requires DataOk(env, entries, data, leaks)
    requires e.key in entries && entries[e.key].numSlots == 0
    requires 0 < |slots| == e.numSlots && e.DataBucketIx() < |data|
    requires InRange(Site(e.DataBucketIx(), ix), data) && !data[e.DataBucketIx()].Occupied(ix)
    requires e.Offset() == ix && e.CreatedPow2() == data[e.DataBucketIx()].pow2
    ensures var s := Site(e.DataBucketIx(), ix);
            var data' := SetCell(data, s, Cell(KeyUid(env, e.key), Overlay(slots, CellAt(s, data).item)));
            && DataOk(env, entries[e.key := e], data', leaks)
            && Contents(env, entries[e.key := e], data') == Contents(env, entries, data)[e.key := Value(slots, e.refCount)]
  {
    var s := Site(e.DataBucketIx(), ix);
    var c := Cell(KeyUid(env, e.key), Overlay(slots, CellAt(s, data).item));
    var data' := SetCell(data, s, c);
    assert TableOk(data[s.d], Pow2(s.d));
    CeilLog2Bounds(|slots|);
    assert SiteOf(e, data') == s;
    assert EntryOk(env, e, data');
    ClearOfFree(env, entries, data, e.key, s);
    ClearIsUndisturbed(env, entries, data, e.key, s, c);
    SetCellTables(data, s, c);
    SetCellUsed(data, s, c);
    FrameSites(env, entries, data, data', e);
    FrameContents(env, entries, data, data', e);
    SitesAreUsed(env, entries, data);
    UsedSite(data, s.d, s.loc);
    SitesPlaced(Sites(env, entries, data), UsedSites(data), leaks, e.key, s);
  }

  /** The data after the cell that an entry owns has been overwritten in place. */
  function Overwritten<T>(env: Env, e: IndexEntry, data: Data<T>, slots: seq<T>): (r: Data<T>)
    requires EntryOk(env, e, data) && e.numSlots > 0
  {
    var s := SiteOf(e, data);
    SetCell(data, s, CellAt(s, data).(item := Overlay(slots, CellAt(s, data).item)))
  }

  /** The new entry is in the same cell as the old one and reads the new slots. */
  lemma OverwriteOwn<T>(env: Env, was: IndexEntry, data: Data<T>, e: IndexEntry, slots: seq<T>)
    requires EntryOk(env, was, data) && was.numSlots > 0 && e.key == was.key
    requires e.numSlots == |slots| && e.packed == was.packed && e.DataBucketIx() == was.DataBucketIx()
    ensures var data' := Overwritten(env, was, data, slots);
            EntryOk(env, e, data') && SiteOf(e, data') == SiteOf(was, data) && ReadSlots(env, e, data') == slots
  {
  }

  /** The cell has room for the new slots, and every other key is left as it was. */
  lemma OverwriteEntry<T>(env: Env, entries: map<Pubkey, IndexEntry>, data: Data<T>, e: IndexEntry, slots: seq<T>)
    requires TablesOk(data) && EntriesOk(env, entries, data) && Injective(Sites(env, entries, data))
    requires e.key in entries && entries[e.key].numSlots > 0
    requires e.numSlots == |slots| && e.packed == entries[e.key].packed
    requires e.DataBucketIx() == entries[e.key].DataBucketIx()
    ensures var data' := Overwritten(env, entries[e.key], data, slots);
            && TablesOk(data') && UsedSites(data') == UsedSites(data)
            && Undisturbed(env, entries, data, data', e.key)
  {
    var s := SiteOf(entries[e.key], data);
    var c := CellAt(s, data).(item := Overlay(slots, CellAt(s, data).item));
    assert TableOk(data[s.d], Pow2(s.d));
    CeilLog2Bounds(|slots|);
    ClearOfOwn(env, entries, data, e.key);
    OwnedIsUsed(env, entries, data, e.key);
    hide Sites, UsedSites, TablesOk, Undisturbed, Injective;
    ClearIsUndisturbed(env, entries, data, e.key, s, c);
    SetCellTables(data, s, c);
    SetCellUsed(data, s, c);
  }

  /**
    Overwriting a list in place by one that belongs in the same table. If the new list is empty
    the old one had a single slot; its cell stays occupied without an owner.
   */
  lemma Overwrite<T>(env: Env, entries: map<Pubkey, IndexEntry>, data: Data<T>, leaks: nat, e: IndexEntry, slots: seq<T>)
    requires DataOk(env, entries, data, leaks)
    requires e.key in entries && entries[e.key].numSlots > 0
    requires e.numSlots == |slots| && e.packed == entries[e.key].packed
    requires e.DataBucketIx() == entries[e.key].DataBucketIx()
    ensures EntryOk(env, entries[e.key], data)
    ensures var data' := Overwritten(env, entries[e.key], data, slots);
            && DataOk(env, entries[e.key := e], data', leaks + if slots == [] then 1 else 0)
            && Contents(env, entries[e.key := e], data') == Contents(env, entries, data)[e.key := Value(slots, e.refCount)]
  {
    var s := SiteOf(entries[e.key], data);
    var data' := Overwritten(env, entries[e.key], data, slots);
    OverwriteOwn(env, entries[e.key], data, e, slots);
    OverwriteEntry(env, entries, data, e, slots);
    OwnedIsUsed(env, entries, data, e.key);
    FrameContents(env, entries, data, data', e);
    var sites := Sites(env, entries, data);
    if slots == [] {
      FrameSitesEmpty(env, entries, data, data', e);
      SitesLeaked(sites, UsedSites(data), leaks, e.key);
    } else {
      FrameSites(env, entries, data, data', e);
      SetSame(sites, e.key, s);
    }
  }

  lemma SetSame(sites: map<Pubkey, Site>, key: Pubkey, s: Site)
    requires key in sites && sites[key] == s
    ensures sites[key := s] == sites
  {
  }

  // ---------------------------------------------------------------------------
  // The operations

  /** A new key starts out with an empty list. */
  lemma Create<T>(env: Env, entries: map<Pubkey, IndexEntry>, data: Data<T>, leaks: nat, key: Pubkey)
    requires DataOk(env, entries, data, leaks) && key !in entries && data != []
    ensures DataOk(env, entries[key := InitEntry(key)], data, leaks)
    ensures Contents(env, entries[key := InitEntry(key)], data) == Contents(env, entries, data)[key := Value([], 0)]
  {
    RewriteEntry(env, entries, data, leaks, InitEntry(key));
  }

  /** Setting a reference count leaves every list alone. */
  lemma SetCount<T>(env: Env, entries: map<Pubkey, IndexEntry>, data: Data<T>, leaks: nat, key: Pubkey, refCount: nat)
    requires DataOk(env, entries, data, leaks) && key in entries
    ensures var e := entries[key].(refCount := refCount);
            && DataOk(env, entries[key := e], data, leaks)
            && key in Contents(env, entries, data)
            && Contents(env, entries[key := e], data)
               == Contents(env, entries, data)[key := Contents(env, entries, data)[key].(refCount := refCount)]
  {
    hide DataOk, EntriesOk, Contents;
    var e := entries[key].(refCount := refCount);
    StoredAt(env, entries, data, leaks, key);
    RewriteEntry(env, entries, data, leaks, e);
  }

  /** The data after an entry has given up the cell it owns, if any. */
  function Released<T>(env: Env, e: IndexEntry, data: Data<T>): (r: Data<T>)
    requires EntryOk(env, e, data)
  {
    if e.numSlots > 0
    then SetCell(data, SiteOf(e, data), CellAt(SiteOf(e, data), data).(lock := UID_UNLOCKED))
    else data
  }

  /** An emptied entry: what is left of a key once its cell has been given up. */
  function Emptied(e: IndexEntry): (r: IndexEntry) {
    InitEntry(e.key).(refCount := e.refCount)
  }

  lemma ReleaseAny<T>(env: Env, entries: map<Pubkey, IndexEntry>, data: Data<T>, leaks: nat, key: Pubkey)
    requires DataOk(env, entries, data, leaks) && key in entries
    ensures EntryOk(env, entries[key], data)
    ensures var e := Emptied(entries[key]); var data' := Released(env, entries[key], data);
            && DataOk(env, entries[key := e], data', leaks)
            && Contents(env, entries[key := e], data') == Contents(env, entries, data)[key := Value([], e.refCount)]
  {
    if entries[key].numSlots > 0 {
      Release(env, entries, data, leaks, key);
    } else {
      RewriteEntry(env, entries, data, leaks, Emptied(entries[key]));
    }
  }

  /** Moving a list to a free cell of its best-fitting table: the old cell is freed, the new one taken. */
  lemma Move<T>(env: Env, entries: map<Pubkey, IndexEntry>, data: Data<T>, leaks: nat, e: IndexEntry, ix: nat, slots: seq<T>)
    requires DataOk(env, entries, data, leaks) && e.key in entries && EntryOk(env, entries[e.key], data)
    requires e.numSlots == |slots| && e.refCount == entries[e.key].refCount && e.DataBucketIx() < |data|
    requires e.Offset() == ix && e.CreatedPow2() == data[e.DataBucketIx()].pow2
    requires slots != [] ==>
               var d := e.DataBucketIx(); var data1 := Released(env, entries[e.key], data);
               InRange(Site(d, ix), data1) && !data1[d].Occupied(ix)
    ensures var s := Site(e.DataBucketIx(), ix);
            var data1 := Released(env, entries[e.key], data);
            var data' := if slots == [] then data1
                         else SetCell(data1, s, Cell(KeyUid(env, e.key), Overlay(slots, CellAt(s, data1).item)));
            && DataOk(env, entries[e.key := e], data', leaks)
            && Contents(env, entries[e.key := e], data') == Contents(env, entries, data)[e.key := Value(slots, e.refCount)]
  {
    hide DataOk, EntriesOk, Contents;
    ReleaseAny(env, entries, data, leaks, e.key);
    var entries1 := entries[e.key := Emptied(entries[e.key])];
    var data1 := Released(env, entries[e.key], data);
    assert entries1[e.key := e] == entries[e.key := e];
    if slots == [] {
      RewriteEntry(env, entries1, data1, leaks, e);
    } else {
      Place(env, entries1, data1, leaks, e, ix, slots);
    }
  }

  /** Deleting a key frees its cell and forgets the key. */
  lemma Delete<T>(env: Env, entries: map<Pubkey, IndexEntry>, data: Data<T>, leaks: nat, key: Pubkey)
    requires DataOk(env, entries, data, leaks) && key in entries
    ensures EntryOk(env, entries[key], data)
    ensures var data' := Released(env, entries[key], data);
            && DataOk(env, entries - {key}, data', leaks)
            && Contents(env, entries - {key}, data') == Contents(env, entries, data) - {key}
  {
    hide DataOk, EntriesOk, Contents;
    ReleaseAny(env, entries, data, leaks, key);
    var entries1 := entries[key := Emptied(entries[key])];
    var data1 := Released(env, entries[key], data);
    DropEntry(env, entries1, data1, leaks, key);
    assert entries1 - {key} == entries - {key};
  }

  // ---------------------------------------------------------------------------
  // Growth of the data

  /** Where a cell goes when table d spreads by a factor g. */
  function Moved(s: Site, d: nat, g: nat): Site {
    if s.d == d then Site(d, s.loc * g) else s
  }

  lemma MovedInjective(r: Site, s: Site, d: nat, g: nat)
    requires g >= 1 && Moved(r, d, g) == Moved(s, d, g)
    ensures r == s
  {
  }

  ghost function MovedSites(sites: map<Pubkey, Site>, d: nat, g: nat): (m: map<Pubkey, Site>)
    ensures m.Keys == sites.Keys
  {
    map k | k in sites :: Moved(sites[k], d, g)
  }

  ghost function MovedSet(used: set<Site>, d: nat, g: nat): (m: set<Site>) {
    set s | s in used :: Moved(s, d, g)
  }

  lemma MovedSize(used: set<Site>, d: nat, g: nat)
    requires g >= 1
    ensures |MovedSet(used, d, g)| == |used|
  {
    var m := map s | s in used :: Moved(s, d, g);
    forall r, s | r in m && s in m && m[r] == m[s]
      ensures r == s
    {
      MovedInjective(r, s, d, g);
    }
    InjectiveSize(m);
    assert m.Keys == used;
    assert m.Values == MovedSet(used, d, g);
  }

  lemma MovedLeaks(sites: map<Pubkey, Site>, used: set<Site>, d: nat, g: nat)
    requires g >= 1
    ensures MovedSet(used, d, g) - MovedSites(sites, d, g).Values == MovedSet(used - sites.Values, d, g)
  {
  }

  lemma SitesMoved(sites: map<Pubkey, Site>, used: set<Site>, leaks: nat, d: nat, g: nat)
    requires SitesOk(sites, used, leaks) && g >= 1
    ensures SitesOk(MovedSites(sites, d, g), MovedSet(used, d, g), leaks)
  {
    MovedLeaks(sites, used, d, g);
    MovedSize(used - sites.Values, d, g);
    var sites' := MovedSites(sites, d, g);
    forall j, k | j in sites' && k in sites' && sites'[j] == sites'[k]
      ensures j == k
    {
      MovedInjective(sites[j], sites[k], d, g);
    }
  }

  function GrowTable<T>(data: Data<T>, d: nat, pow2: nat): (r: Data<T>)
    requires d < |data| && data[d].pow2 <= pow2
  {
    data[d := Resized(data[d], pow2, [])]
  }

  lemma GrowTableOk<T>(t: Table<seq<T>>, pow2: nat, numElems: nat)
    requires TableOk(t, numElems) && t.pow2 <= pow2 <= MAX_CAPACITY_POW2
    ensures TableOk(Resized(t, pow2, []), numElems)
  {
  }

  lemma GrowTables<T>(data: Data<T>, d: nat, pow2: nat)
    requires TablesOk(data) && d < |data| && data[d].pow2 <= pow2 <= MAX_CAPACITY_POW2
    ensures TablesOk(GrowTable(data, d, pow2))
  {
    hide TableOk, Resized, Pow2;
    var data' := GrowTable(data, d, pow2);
    assert TableOk(data[d], Pow2(d));
    GrowTableOk(data[d], pow2, Pow2(d));
    forall i: nat | i < |data'|
      ensures TableOk(data'[i], Pow2(i))
    {
      assert TableOk(data[i], Pow2(i));
    }
  }

  lemma GrowEntry<T>(env: Env, e: IndexEntry, data: Data<T>, d: nat, pow2: nat)
    requires TablesOk(data) && d < |data| && data[d].pow2 <= pow2 && EntryOk(env, e, data)
    ensures EntryOk(env, e, GrowTable(data, d, pow2))
    ensures SiteOf(e, GrowTable(data, d, pow2)) == Moved(SiteOf(e, data), d, Spread(data[d].pow2, pow2))
    ensures ReadSlots(env, e, GrowTable(data, d, pow2)) == ReadSlots(env, e, data)
  {
    var data' := GrowTable(data, d, pow2);
    if e.DataBucketIx() == d {
      assert TableOk(data[d], Pow2(d));
      DataLocScales(e, data[d].pow2, pow2);
      if e.numSlots > 0 {
        ResizedKeeps(data[d], pow2, [], SiteOf(e, data).loc);
        assert CellAt(SiteOf(e, data'), data') == CellAt(SiteOf(e, data), data);
      }
    } else {
      assert data'[e.DataBucketIx()] == data[e.DataBucketIx()];
    }
  }

  lemma GrowUsedFrom<T>(data: Data<T>, d: nat, pow2: nat, s: Site) returns (r: Site)
    requires TablesOk(data) && d < |data| && data[d].pow2 <= pow2 && s in UsedSites(GrowTable(data, d, pow2))
    ensures r in UsedSites(data) && s == Moved(r, d, Spread(data[d].pow2, pow2))
  {
    UsedSite(GrowTable(data, d, pow2), s.d, s.loc);
    assert TableOk(data[d], Pow2(d));
    hide Resized, Spread, Pow2, UsedSites;
    if s.d == d {
      var loc := ResizedOrigin(data[d], pow2, [], s.loc);
      r := Site(d, loc);
    } else {
      r := s;
    }
    UsedSite(data, r.d, r.loc);
  }

  lemma GrowUsedTo<T>(data: Data<T>, d: nat, pow2: nat, r: Site)
    requires TablesOk(data) && d < |data| && data[d].pow2 <= pow2 && r in UsedSites(data)
    ensures Moved(r, d, Spread(data[d].pow2, pow2)) in UsedSites(GrowTable(data, d, pow2))
  {
    var s := Moved(r, d, Spread(data[d].pow2, pow2));
    UsedSite(data, r.d, r.loc);
    assert TableOk(data[d], Pow2(d));
    hide Resized, Spread, Pow2, UsedSites;
    if r.d == d {
      ResizedKeeps(data[d], pow2, [], r.loc);
    }
    UsedSite(GrowTable(data, d, pow2), s.d, s.loc);
  }

  lemma GrowUsed<T>(data: Data<T>, d: nat, pow2: nat)
    requires TablesOk(data) && d < |data| && data[d].pow2 <= pow2
    ensures UsedSites(GrowTable(data, d, pow2)) == MovedSet(UsedSites(data), d, Spread(data[d].pow2, pow2))
  {
    hide UsedSites, GrowTable, Moved, Spread, TablesOk;
    var g := Spread(data[d].pow2, pow2);
    var used, moved := UsedSites(GrowTable(data, d, pow2)), MovedSet(UsedSites(data), d, g);
    forall s | s in used
      ensures s in moved
    {
      var r := GrowUsedFrom(data, d, pow2, s);
    }
    forall s | s in moved
      ensures s in used
    {
      var r :| r in UsedSites(data) && s == Moved(r, d, g);
      GrowUsedTo(data, d, pow2, r);
    }
  }

  lemma GrowEntries<T>(env: Env, entries: map<Pubkey, IndexEntry>, data: Data<T>, d: nat, pow2: nat)
    requires TablesOk(data) && EntriesOk(env, entries, data) && d < |data| && data[d].pow2 <= pow2
    ensures EntriesOk(env, entries, GrowTable(data, d, pow2))
    ensures Sites(env, entries, GrowTable(data, d, pow2))
         == MovedSites(Sites(env, entries, data), d, Spread(data[d].pow2, pow2))
    ensures Contents(env, entries, GrowTable(data, d, pow2)) == Contents(env, entries, data)
  {
    var data' := GrowTable(data, d, pow2);
    var g := Spread(data[d].pow2, pow2);
    forall k | k in entries
      ensures EntryOk(env, entries[k], data')
      ensures SiteOf(entries[k], data') == Moved(SiteOf(entries[k], data), d, g)
      ensures ReadSlots(env, entries[k], data') == ReadSlots(env, entries[k], data)
    {
      GrowEntry(env, entries[k], data, d, pow2);
    }
  }

  /** Replacing a data table by a resized copy keeps the invariant and changes nothing that is stored. */
  lemma Grow<T>(env: Env, entries: map<Pubkey, IndexEntry>, data: Data<T>, leaks: nat, d: nat, pow2: nat)
    requires DataOk(env, entries, data, leaks)
    requires d < |data| && data[d].pow2 <= pow2 <= MAX_CAPACITY_POW2
    ensures DataOk(env, entries, GrowTable(data, d, pow2), leaks)
    ensures Contents(env, entries, GrowTable(data, d, pow2)) == Contents(env, entries, data)
  {
    GrowTables(data, d, pow2);
    GrowUsed(data, d, pow2);
    GrowEntries(env, entries, data, d, pow2);
    SitesMoved(Sites(env, entries, data), UsedSites(data), leaks, d, Spread(data[d].pow2, pow2));
  }

  lemma AppendEntries<T>(env: Env, entries: map<Pubkey, IndexEntry>, data: Data<T>, t: Table<seq<T>>)
    requires EntriesOk(env, entries, data)
    ensures EntriesOk(env, entries, data + [t])
    ensures Sites(env, entries, data + [t]) == Sites(env, entries, data)
    ensures Contents(env, entries, data + [t]) == Contents(env, entries, data)
  {
    forall k | k in entries
      ensures EntryOk(env, entries[k], data + [t])
      ensures SiteOf(entries[k], data + [t]) == SiteOf(entries[k], data)
      ensures ReadSlots(env, entries[k], data + [t]) == ReadSlots(env, entries[k], data)
    {
      assert (data + [t])[entries[k].DataBucketIx()] == data[entries[k].DataBucketIx()];
    }
  }

  /** Adding a vacant data table changes nothing that is stored. */
  lemma Append<T>(env: Env, entries: map<Pubkey, IndexEntry>, data: Data<T>, leaks: nat, pow2: nat)
    requires DataOk(env, entries, data, leaks)
    requires DEFAULT_CAPACITY_POW2 <= pow2 <= MAX_CAPACITY_POW2
    ensures DataOk(env, entries, data + [Vacant(pow2, [])], leaks)
    ensures Contents(env, entries, data + [Vacant(pow2, [])]) == Contents(env, entries, data)
  {
    var data' := data + [Vacant(pow2, [])];
    forall d: nat | d < |data'|
      ensures TableOk(data'[d], Pow2(d))
    {
      assert d < |data| ==> TableOk(data[d], Pow2(d));
    }
    forall s
      ensures s in UsedSites(data') <==> s in UsedSites(data)
    {
      UsedSite(data, s.d, s.loc);
      UsedSite(data', s.d, s.loc);
    }
    assert UsedSites(data') == UsedSites(data);
    AppendEntries(env, entries, data, Vacant(pow2, []));
  }

  // ---------------------------------------------------------------------------
  // Accounting

  /** The non-empty keys whose list belongs in data table d. */
  ghost function KeysIn(entries: map<Pubkey, IndexEntry>, d: nat): (s: set<Pubkey>) {
    set k | k in NonEmpty(entries) && entries[k].DataBucketIx() == d
  }

  /**
    The accounting law: in every data table the occupied cells are as many as the keys whose lists
    belong there, and in table 0 there are `leaks` more.
   */
  lemma Accounting<T>(env: Env, entries: map<Pubkey, IndexEntry>, data: Data<T>, leaks: nat, d: nat)
    requires DataOk(env, entries, data, leaks) && d < |data|
    ensures |data[d].Used()| == |KeysIn(entries, d)| + if d == 0 then leaks else 0
  {
    var sites := Sites(env, entries, data);
    SitesAreUsed(env, entries, data);
    SitesBelong(env, entries, data);
    UsedInTable(data, d);
    SplitTable(entries, sites, UsedSites(data), d);
    OwnedInTable(entries, sites, d);
    LeakedInTable(sites, UsedSites(data), leaks, d);
  }

  lemma SitesBelong<T>(env: Env, entries: map<Pubkey, IndexEntry>, data: Data<T>)
    requires EntriesOk(env, entries, data)
    ensures forall k :: k in Sites(env, entries, data) ==> Sites(env, entries, data)[k].d == entries[k].DataBucketIx()
  {
  }

  lemma OwnedInTable(entries: map<Pubkey, IndexEntry>, sites: map<Pubkey, Site>, d: nat)
    requires Injective(sites) && sites.Keys == NonEmpty(entries)
    ensures |set k | k in KeysIn(entries, d) :: sites[k]| == |KeysIn(entries, d)|
  {
    var m := map k | k in KeysIn(entries, d) :: sites[k];
    InjectiveSize(m);
    assert m.Keys == KeysIn(entries, d);
    assert m.Values == set k | k in KeysIn(entries, d) :: sites[k];
  }

  lemma LeakedInTable(sites: map<Pubkey, Site>, used: set<Site>, leaks: nat, d: nat)
    requires SitesOk(sites, used, leaks)
    ensures |set s | s in used - sites.Values && s.d == d| == if d == 0 then leaks else 0
  {
    var leaked := used - sites.Values;
    assert (set s | s in leaked && s.d == d) == if d == 0 then leaked else {};
  }

  lemma UsedInTable<T>(data: Data<T>, d: nat)
    requires d < |data|
    ensures |data[d].Used()| == |set s | s in UsedSites(data) && s.d == d|
  {
    var m := map loc | loc in data[d].Used() :: Site(d, loc);
    InjectiveSize(m);
    assert m.Keys == data[d].Used();
    var used := set s | s in UsedSites(data) && s.d == d;
    forall s | s in used
      ensures s in m.Values
    {
      UsedSite(data, s.d, s.loc);
      assert s.loc in m && m[s.loc] == s;
    }
    assert m.Values == used;
  }

  lemma SplitTable(entries: map<Pubkey, IndexEntry>, sites: map<Pubkey, Site>, used: set<Site>, d: nat)
    requires sites.Keys == NonEmpty(entries) && sites.Values <= used
    requires forall k :: k in sites ==> sites[k].d == entries[k].DataBucketIx()
    ensures var owned := set k | k in KeysIn(entries, d) :: sites[k];
            var here := set s | s in used - sites.Values && s.d == d;
            |set s | s in used && s.d == d| == |owned| + |here|
  {
    var owned := set k | k in KeysIn(entries, d) :: sites[k];
    var here := set s | s in used - sites.Values && s.d == d;
    var all := set s | s in used && s.d == d;
    forall s | s in all && s !in here
      ensures s in owned
    {
      var k :| k in sites && sites[k] == s;
      assert k in KeysIn(entries, d);
    }
    assert all == owned + here && owned !! here;
  }
}
