/** Probing the index: looking a key up and taking a cell for a new one. */
module IndexOps {
  import opened Options
  import opened Arithmetic
  import opened Storage
  import opened IndexEntries

  /**
    Walks the key's probe window past holes and other keys. In a well-formed index it finds the
    key's cell exactly when the key is stored.
   */
  method FindEntry(env: Env, index: BucketStorage<IndexEntry>, key: Pubkey, random: nat) returns (r: Option<nat>)
    requires IndexOk(env, index.View(), random)
    ensures r.Some? <==> key in Entries(index.View())
    ensures r.Some? ==> index.View().Occupied(r.value) && index.View().cells[r.value].item == Entries(index.View())[key]
  {
    ghost var t := index.View();
    var cap := index.Capacity();
    var start := IndexStart(env, index.capacityPow2, key, random);
    var i := start;
    while i < start + env.maxSearch
      invariant start <= i
      invariant forall p: nat :: p < cap && Distance(start, p, cap) < i - start ==> !Holds(t, p, key)
    {
      var ii := i % cap;
      ProbeDistance(start, i - start, cap);
      if !index.IsFree(ii) && index.mmap[ii].item.key == key {
        assert t.Occupied(ii);
        return Some(ii);
      }
      forall p: nat | p < cap && Distance(start, p, cap) == i - start
        ensures !Holds(t, p, key)
      {
        ProbeReaches(start, p, cap);
      }
      i := i + 1;
    }
    assert key in Entries(t) ==> Holds(t, PositionOf(t, key), key);
    r := None;
  }

  predicate Holds(t: Table<IndexEntry>, p: nat, key: Pubkey) {
    t.Occupied(p) && t.cells[p].item.key == key
  }

  /** Takes the first free cell of the key's window, or reports that the whole window is occupied. */
  method CreateKey(env: Env, index: BucketStorage<IndexEntry>, key: Pubkey, uid: nat, random: nat, isResizing: bool)
    returns (r: Option<nat>)
    requires index.Valid() && uid != UID_UNLOCKED
    modifies index.mmap, if isResizing then {} else {index.count}
    ensures r.None? ==> WindowFull(old(index.View()), IndexStart(env, index.capacityPow2, key, random), env.maxSearch)
    ensures r.None? ==> index.View() == old(index.View()) && index.count.n == old(index.count.n)
    ensures r.Some? ==> InWindow(env, index.capacityPow2, random, key, r.value) && !old(index.View()).Occupied(r.value)
    ensures r.Some? ==> FirstFree(old(index.View()), IndexStart(env, index.capacityPow2, key, random), env.maxSearch, r.value)
    ensures r.Some? ==> index.View() == SetIndexCell(old(index.View()), r.value, Cell(uid, InitEntry(key)))
    ensures r.Some? ==> index.count.n == old(index.count.n) + if isResizing then 0 else 1
  {
    ghost var t := index.View();
    var cap := index.Capacity();
    var start := IndexStart(env, index.capacityPow2, key, random);
    var i := start;
    while i < start + env.maxSearch
      invariant start <= i
      invariant index.View() == t && index.count.n == old(index.count.n)
      invariant forall p: nat :: p < cap && Distance(start, p, cap) < i - start ==> t.Occupied(p)
    {
      var ii := i % cap;
      ProbeDistance(start, i - start, cap);
      if index.IsFree(ii) {
        assert !t.Occupied(ii);
        var ok := index.Allocate(ii, uid, isResizing);
        index.Put(ii, InitEntry(key));
        return Some(ii);
      }
      forall p: nat | p < cap && Distance(start, p, cap) == i - start
        ensures t.Occupied(p)
      {
        ProbeReaches(start, p, cap);
      }
      i := i + 1;
    }
    r := None;
  }

  /** A new key in a free cell of its window keeps the index well-formed. */
  lemma IndexAdd(env: Env, t: Table<IndexEntry>, random: nat, p: nat, e: IndexEntry)
    requires IndexOk(env, t, random) && e.key !in Entries(t)
    requires InWindow(env, t.pow2, random, e.key, p) && !t.Occupied(p)
    ensures var t' := SetIndexCell(t, p, Cell(KeyUid(env, e.key), e));
            IndexOk(env, t', random) && Entries(t') == Entries(t)[e.key := e]
  {
    var c := Cell(KeyUid(env, e.key), e);
    EntriesSet(t, p, c);
    var t' := SetIndexCell(t, p, c);
    forall q: nat | t'.Occupied(q)
      ensures t'.cells[q].lock == KeyUid(env, t'.cells[q].item.key) && InWindow(env, t'.pow2, random, t'.cells[q].item.key, q)
    {
      assert q != p ==> t.Occupied(q);
    }
  }

  /** Rewriting the entry of a stored key keeps the index well-formed. */
  lemma IndexRewrite(env: Env, t: Table<IndexEntry>, random: nat, p: nat, e: IndexEntry)
    requires IndexOk(env, t, random) && t.Occupied(p) && t.cells[p].item.key == e.key
    ensures var t' := SetIndexCell(t, p, Cell(t.cells[p].lock, e));
            IndexOk(env, t', random) && Entries(t') == Entries(t)[e.key := e]
  {
    var c := Cell(t.cells[p].lock, e);
    EntriesSet(t, p, c);
    var t' := SetIndexCell(t, p, c);
    forall q: nat | t'.Occupied(q)
      ensures t'.cells[q].lock == KeyUid(env, t'.cells[q].item.key) && InWindow(env, t'.pow2, random, t'.cells[q].item.key, q)
    {
      assert t.Occupied(q);
    }
  }

  /** Freeing a stored key's cell keeps the index well-formed. */
  lemma IndexRemove(env: Env, t: Table<IndexEntry>, random: nat, p: nat)
    requires IndexOk(env, t, random) && t.Occupied(p)
    ensures var t' := SetIndexCell(t, p, Cell(UID_UNLOCKED, t.cells[p].item));
            IndexOk(env, t', random) && Entries(t') == Entries(t) - {t.cells[p].item.key}
  {
    EntriesUnset(t, p);
    var t' := SetIndexCell(t, p, Cell(UID_UNLOCKED, t.cells[p].item));
    forall q: nat | t'.Occupied(q)
      ensures t'.cells[q].lock == KeyUid(env, t'.cells[q].item.key) && InWindow(env, t'.pow2, random, t'.cells[q].item.key, q)
    {
      assert q != p && t.Occupied(q);
    }
  }

  // ---------------------------------------------------------------------------
  // Re-indexing

  /** The first n cells of an index. */
  ghost function Prefix(t: Table<IndexEntry>, n: nat): (r: Table<IndexEntry>)
    requires n <= |t.cells|
    ensures UniqueKeys(t) ==> UniqueKeys(r)
  {
    var r := t.(cells := t.cells[..n]);
    assert forall p: nat :: r.Occupied(p) ==> t.Occupied(p) && r.cells[p] == t.cells[p];
    r
  }

  lemma PrefixStep(t: Table<IndexEntry>, n: nat)
    requires UniqueKeys(t) && n < |t.cells|
    ensures t.Occupied(n) ==>
              && t.cells[n].item.key !in Entries(Prefix(t, n))
              && Entries(Prefix(t, n + 1)) == Entries(Prefix(t, n))[t.cells[n].item.key := t.cells[n].item]
    ensures !t.Occupied(n) ==> Entries(Prefix(t, n + 1)) == Entries(Prefix(t, n))
  {
    hide UniqueKeys, KeySet, PositionOf;
    var a, b := Prefix(t, n), Prefix(t, n + 1);
    PrefixExtends(t, n);
    assert b.Occupied(n) == t.Occupied(n) && b.cells[n] == t.cells[n];
  }

  lemma PrefixExtends(t: Table<IndexEntry>, n: nat)
    requires UniqueKeys(t) && n < |t.cells|
    ensures var a, b := Prefix(t, n), Prefix(t, n + 1);
            && (forall k :: k in Entries(a) ==> k in Entries(b) && Entries(b)[k] == Entries(a)[k])
            && (forall k :: k in Entries(b) ==> k in Entries(a) || (t.Occupied(n) && k == t.cells[n].item.key))
            && (t.Occupied(n) ==> t.cells[n].item.key !in Entries(a))
  {
    var a, b := Prefix(t, n), Prefix(t, n + 1);
    forall k | k in Entries(a)
      ensures k in Entries(b) && Entries(b)[k] == Entries(a)[k]
      ensures t.Occupied(n) ==> t.cells[n].item.key != k
    {
      assert t.Occupied(PositionOf(a, k));
      assert b.Occupied(PositionOf(a, k)) && b.cells[PositionOf(a, k)] == a.cells[PositionOf(a, k)];
    }
    forall k | k in Entries(b)
      ensures k in Entries(a) || (t.Occupied(n) && k == t.cells[n].item.key)
    {
      var p := PositionOf(b, k);
      assert p < n ==> a.Occupied(p) && a.cells[p] == b.cells[p];
    }
  }

  lemma PrefixWithin(t: Table<IndexEntry>, n: nat)
    requires UniqueKeys(t) && n <= |t.cells|
    ensures UniqueKeys(Prefix(t, n)) && Entries(Prefix(t, n)).Keys <= Entries(t).Keys
    ensures forall p: nat :: t.Occupied(p) ==> t.cells[p].item.key in Entries(t)
  {
    forall k | k in Entries(Prefix(t, n))
      ensures k in Entries(t)
    {
      assert t.Occupied(PositionOf(Prefix(t, n), k));
    }
  }

  lemma PrefixNone(t: Table<IndexEntry>)
    ensures UniqueKeys(Prefix(t, 0)) && Entries(Prefix(t, 0)) == map[]
  {
  }

  lemma PrefixAll(t: Table<IndexEntry>)
    ensures Prefix(t, |t.cells|) == t
  {
  }

  /** An index after a cell was copied to the first free place of its key's window, if there is one. */
  ghost function Inserted(env: Env, t: Table<IndexEntry>, random: nat, c: Cell<IndexEntry>): (r: Option<Table<IndexEntry>>) {
    var start := IndexStart(env, t.pow2, c.item.key, random);
    if exists p: nat :: FirstFree(t, start, env.maxSearch, p) then
      var p: nat :| FirstFree(t, start, env.maxSearch, p);
      Some(SetIndexCell(t, p, c))
    else None
  }

  /** A new index after the first n cells of another one were copied to it in order, unless a key found no place. */
  ghost function Rebuilt(env: Env, t: Table<IndexEntry>, n: nat, pow2: nat, random: nat): (r: Option<Table<IndexEntry>>)
    requires n <= |t.cells|
  {
    if n == 0 then Some(Vacant(pow2, ZeroEntry()))
    else
      var before := Rebuilt(env, t, n - 1, pow2, random);
      if before.None? || !t.Occupied(n - 1) then before else Inserted(env, before.value, random, t.cells[n - 1])
  }

  lemma InsertedAt(env: Env, t: Table<IndexEntry>, random: nat, c: Cell<IndexEntry>, p: nat)
    requires FirstFree(t, IndexStart(env, t.pow2, c.item.key, random), env.maxSearch, p)
    ensures Inserted(env, t, random, c) == Some(SetIndexCell(t, p, c))
  {
    hide IndexStart;
    var start := IndexStart(env, t.pow2, c.item.key, random);
    forall q: nat | FirstFree(t, start, env.maxSearch, q)
      ensures q == p
    {
      FirstFreeOnce(t, start, env.maxSearch, p, q);
    }
  }

  lemma InsertedNowhere(env: Env, t: Table<IndexEntry>, random: nat, c: Cell<IndexEntry>)
    requires NoCell(env, t, random, c.item.key)
    ensures Inserted(env, t, random, c) == None
  {
    hide IndexStart;
  }

  lemma {:induction false} StaysNone(env: Env, t: Table<IndexEntry>, m: nat, n: nat, pow2: nat, random: nat)
    requires m <= n <= |t.cells| && Rebuilt(env, t, m, pow2, random) == None
    ensures Rebuilt(env, t, n, pow2, random) == None
    decreases n
  {
    if m < n {
      StaysNone(env, t, m, n - 1, pow2, random);
    }
  }

  /** Gives an entry a cell in the index under construction, if its window has room. */
  method CopyEntry(env: Env, grown: BucketStorage<IndexEntry>, random: nat, elem: IndexEntry, uid: nat) returns (ok: bool)
    requires IndexOk(env, grown.View(), random) && elem.key !in Entries(grown.View()) && uid == KeyUid(env, elem.key)
    modifies grown.mmap
    ensures ok ==> IndexOk(env, grown.View(), random) && Entries(grown.View()) == old(Entries(grown.View()))[elem.key := elem]
    ensures !ok ==> grown.View() == old(grown.View()) && NoCell(env, grown.View(), random, elem.key)
    ensures Inserted(env, old(grown.View()), random, Cell(uid, elem)) == if ok then Some(grown.View()) else None
  {
    ghost var g := grown.View();
    var p := CreateKey(env, grown, elem.key, uid, random, true);
    ok := p.Some?;
    if ok {
      IndexAdd(env, g, random, p.value, elem);
      grown.Put(p.value, elem);
      assert grown.View() == SetIndexCell(g, p.value, Cell(uid, elem));
      InsertedAt(env, g, random, Cell(uid, elem), p.value);
    } else {
      InsertedNowhere(env, g, random, Cell(uid, elem));
    }
  }

  /** Copies cell ix of an index, if it is occupied, after all cells before it have been copied. */
  method CopyCell(env: Env, index: BucketStorage<IndexEntry>, random: nat, grown: BucketStorage<IndexEntry>, newRandom: nat, ix: nat)
    returns (ok: bool)
    requires IndexOk(env, index.View(), random) && IndexOk(env, grown.View(), newRandom)
    requires index.mmap != grown.mmap && ix < index.mmap.Length
    requires Entries(grown.View()) == Entries(Prefix(index.View(), ix))
    requires Rebuilt(env, index.View(), ix, grown.capacityPow2, newRandom) == Some(grown.View())
    modifies grown.mmap
    ensures ok ==> IndexOk(env, grown.View(), newRandom) && Entries(grown.View()) == Entries(Prefix(index.View(), ix + 1))
    ensures !ok ==> Jammed(env, Entries(index.View()).Keys, grown.capacityPow2, newRandom)
    ensures Rebuilt(env, index.View(), ix + 1, grown.capacityPow2, newRandom) == if ok then Some(grown.View()) else None
  {
    hide KeySet, PositionOf, Prefix, InWindow, NoCell, Inserted;
    ghost var t := index.View();
    PrefixStep(t, ix);
    PrefixWithin(t, ix);
    ok := true;
    var uid := index.Uid(ix);
    if uid.Some? {
      assert t.Occupied(ix);
      ok := CopyEntry(env, grown, newRandom, index.mmap[ix].item, uid.value);
      if !ok {
        assert ShutsOut(env, grown.View(), newRandom, Entries(t).Keys, t.cells[ix].item.key);
      }
    }
  }

  /**
    Builds a larger index with another random. Fails if some key finds its window full of other
    keys. The old index is only read; on success both spell out the same map of entries.
   */
  method Reindex(env: Env, index: BucketStorage<IndexEntry>, random: nat, capacityPow2: nat, newRandom: nat)
    returns (r: Option<BucketStorage<IndexEntry>>)
    requires IndexOk(env, index.View(), random) && capacityPow2 <= MAX_CAPACITY_POW2
    ensures r.Some? ==>
              && fresh(r.value) && fresh(r.value.mmap) && r.value.Valid()
              && r.value.count == index.count && r.value.capacityPow2 == capacityPow2
              && IndexOk(env, r.value.View(), newRandom)
              && Entries(r.value.View()) == Entries(index.View())
    ensures r.None? ==> Jammed(env, Entries(index.View()).Keys, capacityPow2, newRandom)
    ensures Rebuilt(env, index.View(), index.Capacity(), capacityPow2, newRandom)
              == if r.Some? then Some(r.value.View()) else None
  {
    hide KeySet, PositionOf, InWindow, Jammed, KeyUid;
    ghost var t := index.View();
    PrefixNone(t);
    PrefixAll(t);
    var grown := new BucketStorage(1, capacityPow2, ZeroEntry(), index.count);
    VacantIndex(env, capacityPow2, newRandom);
    hide Entries, UniqueKeys, Prefix, Inserted;
    var ix := 0;
    while ix < index.Capacity()
      invariant 0 <= ix <= index.Capacity()
      invariant index.View() == t
      invariant IndexOk(env, grown.View(), newRandom)
      invariant Entries(grown.View()) == Entries(Prefix(t, ix))
      invariant Rebuilt(env, t, ix, capacityPow2, newRandom) == Some(grown.View())
    {
      var ok := CopyCell(env, index, random, grown, newRandom, ix);
      if !ok {
        StaysNone(env, t, ix + 1, index.Capacity(), capacityPow2, newRandom);
        return None;
      }
      ix := ix + 1;
    }
    r := Some(grown);
  }

  lemma VacantIndex(env: Env, pow2: nat, random: nat)
    requires pow2 <= MAX_CAPACITY_POW2
    ensures IndexOk(env, Vacant(pow2, ZeroEntry()), random) && Entries(Vacant(pow2, ZeroEntry())) == map[]
  {
  }

  /**
    The first larger index, in order of capacity, in which every key finds room. There is none only
    if for every larger capacity there is a random under which some of the keys shut out another.
   */
  method SearchIndex(env: Env, index: BucketStorage<IndexEntry>, random: nat)
    returns (r: Option<(nat, BucketStorage<IndexEntry>)>)
    requires IndexOk(env, index.View(), random)
    ensures r.Some? ==>
              var (newRandom, grown) := r.value;
              && fresh(grown) && fresh(grown.mmap) && grown.Valid() && grown.count == index.count
              && NextLarger(env, Entries(index.View()).Keys, index.capacityPow2, grown.capacityPow2)
              && IndexOk(env, grown.View(), newRandom) && Entries(grown.View()) == Entries(index.View())
              && Rebuilt(env, index.View(), index.Capacity(), grown.capacityPow2, newRandom) == Some(grown.View())
    ensures r.None? ==> Cramped(env, Entries(index.View()).Keys, index.capacityPow2)
  {
    hide Entries, UniqueKeys, Jammed, MayJam, Rebuilt;
    ghost var t := index.View();
    var pow2 := index.capacityPow2 + 1;
    while pow2 <= MAX_CAPACITY_POW2
      invariant index.capacityPow2 < pow2 && index.View() == t
      invariant forall larger :: index.capacityPow2 < larger < pow2 ==> MayJam(env, Entries(t).Keys, larger)
    {
      var newRandom: nat := *;
      var grown := Reindex(env, index, random, pow2, newRandom);
      if grown.Some? {
        return Some((newRandom, grown.value));
      }
      MayJamBy(env, Entries(t).Keys, pow2, newRandom);
      pow2 := pow2 + 1;
    }
    r := None;
  }
}
