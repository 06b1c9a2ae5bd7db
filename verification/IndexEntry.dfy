/**
  Keys, index entries and the index table. An index is a table probed over a bounded circular
  window; its meaning is the map from keys to entries that its occupied cells spell out.
 */
module IndexEntries {
  import opened Options
  import opened Arithmetic
  import opened Storage

  type U64 = n: int | 0 <= n < U64_RANGE

  /** A 32-byte key: its first eight bytes and its other bytes, each read as a big-endian number. */
  datatype Pubkey = Pubkey(high: U64, low: nat)

  /** The order of the keys, the byte order of their bytes. */
  predicate KeyLeq(a: Pubkey, b: Pubkey) {
    a.high < b.high || (a.high == b.high && a.low <= b.low)
  }

  datatype Bound = Unbounded | Included(key: Pubkey) | Excluded(key: Pubkey)

  datatype KeyRange = KeyRange(start: Bound, end: Bound)

  /** Whether a key is in a range; no range selects every key. */
  predicate Selects(range: Option<KeyRange>, key: Pubkey) {
    range.Some? ==>
      && (match range.value.start
          case Unbounded => true
          case Included(k) => KeyLeq(k, key)
          case Excluded(k) => KeyLeq(k, key) && k != key)
      && (match range.value.end
          case Unbounded => true
          case Included(k) => KeyLeq(key, k)
          case Excluded(k) => KeyLeq(key, k) && k != key)
  }

  const U64_RANGE: nat := 0x1_0000_0000_0000_0000
  const OFFSET_RANGE: nat := 0x100_0000_0000_0000

  /** Reference counts are 64 bits wide and wrap around. */
  function CountUp(n: nat): (r: nat)
    ensures n < U64_RANGE - 1 ==> r == n + 1
    ensures n == U64_RANGE - 1 ==> r == 0
  {
    (n + 1) % U64_RANGE
  }

  function CountDown(n: nat): (r: nat)
    ensures 0 < n < U64_RANGE ==> r == n - 1
    ensures n == 0 ==> r == U64_RANGE - 1
  {
    (n - 1) % U64_RANGE
  }

  /** The hash functions and the probe length, arbitrary but fixed for the lifetime of a map. */
  datatype Env = Env(keyHash: Pubkey -> nat, indexHash: (nat, nat) -> nat, maxSearch: nat)

  /** The uid of a key. Distinct keys may share one; it is never the uid of a free cell. */
  function KeyUid(env: Env, key: Pubkey): (uid: nat)
    ensures uid != UID_UNLOCKED
  {
    var h := env.keyHash(key);
    if h < 1 then 1 else h
  }

  /** Where probing for `key` starts in an index of capacity 2^pow2. */
  function IndexStart(env: Env, pow2: nat, key: Pubkey, random: nat): (ix: nat)
    ensures ix < Pow2(pow2)
  {
    env.indexHash(KeyUid(env, key), random) % Pow2(pow2)
  }

  /** One index entry. `packed` holds the capacity at creation in its low byte and the offset above it. */
  datatype IndexEntry = IndexEntry(key: Pubkey, refCount: nat, packed: nat, numSlots: nat) {
    function Offset(): (o: nat) {
      packed / 256
    }

    function CreatedPow2(): (p: nat)
      ensures p < 256
    {
      packed % 256
    }

    function SetOffset(offset: nat): (e: IndexEntry)
      requires offset < OFFSET_RANGE
      ensures e.Offset() == offset && e.CreatedPow2() == CreatedPow2() && e.packed < U64_RANGE
      ensures e == this.(packed := e.packed)
    {
      this.(packed := CreatedPow2() + 256 * offset)
    }

    function SetCreatedPow2(pow2: nat): (e: IndexEntry)
      requires pow2 < 256
      ensures e.CreatedPow2() == pow2 && e.Offset() == Offset()
      ensures e == this.(packed := e.packed)
    {
      this.(packed := pow2 + 256 * Offset())
    }

    function DataBucketIx(): (d: nat) {
      CeilLog2(numSlots)
    }

    /** The entry's cell in a data storage of capacity 2^pow2, however often it grew since creation. */
    function DataLoc(pow2: nat): (loc: nat)
      requires CreatedPow2() <= pow2
    {
      ShiftLeft(Offset(), pow2 - CreatedPow2())
    }
  }

  function InitEntry(key: Pubkey): (e: IndexEntry)
    ensures e.Offset() == 0 && e.CreatedPow2() == 0 && e.numSlots == 0
  {
    IndexEntry(key, 0, 0, 0)
  }

  /** The all-zero entry that a newly created index file is filled with. */
  function ZeroEntry(): IndexEntry {
    InitEntry(Pubkey(0, 0))
  }

  /** Growing the data storage moves the entry's cell by the same factor as it moves the cells. */
  lemma DataLocScales(e: IndexEntry, fromPow2: nat, toPow2: nat)
    requires e.CreatedPow2() <= fromPow2 <= toPow2
    ensures e.DataLoc(toPow2) == e.DataLoc(fromPow2) * Spread(fromPow2, toPow2)
  {
    ShiftLeftTwice(e.Offset(), fromPow2 - e.CreatedPow2(), toPow2 - fromPow2);
    ShiftLeftIsScale(e.DataLoc(fromPow2), toPow2 - fromPow2);
  }

  // ---------------------------------------------------------------------------
  // The index table

  predicate InWindow(env: Env, pow2: nat, random: nat, key: Pubkey, p: nat) {
    p < Pow2(pow2) && Distance(IndexStart(env, pow2, key, random), p, Pow2(pow2)) < env.maxSearch
  }

  ghost predicate UniqueKeys(t: Table<IndexEntry>) {
    forall p: nat, q: nat :: t.Occupied(p) && t.Occupied(q) && t.cells[p].item.key == t.cells[q].item.key ==> p == q
  }

  /** Every occupied cell holds its key's uid, lies in its key's probe window, and no key occurs twice. */
  ghost predicate IndexOk(env: Env, t: Table<IndexEntry>, random: nat) {
    && t.Sized()
    && UniqueKeys(t)
    && forall p: nat :: t.Occupied(p) ==>
         && t.cells[p].lock == KeyUid(env, t.cells[p].item.key)
         && InWindow(env, t.pow2, random, t.cells[p].item.key, p)
  }

  ghost function KeySet(t: Table<IndexEntry>): (s: set<Pubkey>) {
    set p: nat | p < |t.cells| && t.Occupied(p) :: t.cells[p].item.key
  }

  ghost function PositionOf(t: Table<IndexEntry>, key: Pubkey): (p: nat)
    requires key in KeySet(t)
    ensures t.Occupied(p) && t.cells[p].item.key == key
  {
    var p: nat :| t.Occupied(p) && t.cells[p].item.key == key; p
  }

  /** The meaning of an index: the map from its keys to their entries. */
  ghost function Entries(t: Table<IndexEntry>): (m: map<Pubkey, IndexEntry>)
    requires UniqueKeys(t)
    ensures forall p: nat :: t.Occupied(p) ==> t.cells[p].item.key in m && m[t.cells[p].item.key] == t.cells[p].item
    ensures forall k :: k in m ==> k in KeySet(t) && m[k] == t.cells[PositionOf(t, k)].item && m[k].key == k
  {
    map k | k in KeySet(t) :: t.cells[PositionOf(t, k)].item
  }

  ghost function SetIndexCell(t: Table<IndexEntry>, p: nat, c: Cell<IndexEntry>): Table<IndexEntry>
    requires p < |t.cells|
  {
    t.(cells := t.cells[p := c])
  }

  /** Filling a free cell with a new key, or replacing the entry of a present one, updates one key. */
  lemma EntriesSet(t: Table<IndexEntry>, p: nat, c: Cell<IndexEntry>)
    requires UniqueKeys(t) && p < |t.cells| && c.lock != UID_UNLOCKED
    requires if t.Occupied(p) then t.cells[p].item.key == c.item.key else c.item.key !in Entries(t)
    ensures UniqueKeys(SetIndexCell(t, p, c))
    ensures Entries(SetIndexCell(t, p, c)) == Entries(t)[c.item.key := c.item]
  {
    var t' := SetIndexCell(t, p, c);
    forall q: nat, r: nat | t'.Occupied(q) && t'.Occupied(r) && t'.cells[q].item.key == t'.cells[r].item.key
      ensures q == r
    {
      assert q != p ==> t.Occupied(q);
      assert r != p ==> t.Occupied(r);
    }
    var m := Entries(t)[c.item.key := c.item];
    forall k | k in m
      ensures k in Entries(t') && Entries(t')[k] == m[k]
    {
      var q := if k == c.item.key then p else PositionOf(t, k);
      assert t'.Occupied(q);
    }
    forall k | k in Entries(t')
      ensures k in m
    {
      var q := PositionOf(t', k);
      assert q != p ==> t.Occupied(q);
    }
  }

  /** Freeing a cell removes exactly its key. */
  lemma EntriesUnset(t: Table<IndexEntry>, p: nat)
    requires UniqueKeys(t) && t.Occupied(p)
    ensures var t' := SetIndexCell(t, p, Cell(UID_UNLOCKED, t.cells[p].item));
            UniqueKeys(t') && Entries(t') == Entries(t) - {t.cells[p].item.key}
  {
    var t' := SetIndexCell(t, p, Cell(UID_UNLOCKED, t.cells[p].item));
    forall q: nat | t'.Occupied(q)
      ensures q != p && t.Occupied(q) && t'.cells[q] == t.cells[q]
    {
    }
    var m := Entries(t) - {t.cells[p].item.key};
    forall k | k in m
      ensures k in Entries(t') && Entries(t')[k] == m[k]
    {
      var q := PositionOf(t, k);
      assert t'.Occupied(q);
    }
    forall k | k in Entries(t')
      ensures k in m
    {
      var q := PositionOf(t', k);
      assert t.Occupied(q);
    }
  }

  /** There are as many keys as occupied cells. */
  lemma EntriesSize(t: Table<IndexEntry>)
    requires UniqueKeys(t)
    ensures |Entries(t)| == |t.Used()|
  {
    var m := map p | p in t.Used() :: t.cells[p].item.key;
    InjectiveSize(m);
    assert m.Keys == t.Used();
    forall k | k in Entries(t)
      ensures k in m.Values
    {
      var q := PositionOf(t, k);
      assert q in m && m[q] == k;
    }
    assert Entries(t).Keys == m.Values;
  }

  /** The first n cells of a probe. */
  ghost function Probed(start: nat, n: nat, cap: nat): (s: set<nat>)
    requires start < cap
  {
    if n == 0 then {} else Probed(start, n - 1, cap) + {(start + (n - 1)) % cap}
  }

  lemma {:induction false} ProbedSize(start: nat, n: nat, cap: nat)
    requires start < cap && n <= cap
    ensures |Probed(start, n, cap)| == n
    ensures forall p :: p in Probed(start, n, cap) ==> p < cap && Distance(start, p, cap) < n
  {
    if n > 0 {
      ProbedSize(start, n - 1, cap);
      ProbeDistance(start, n - 1, cap);
    }
  }

  /** How many cells a probe of a table with 2^pow2 cells visits. */
  function Reach(env: Env, pow2: nat): (n: nat) {
    if env.maxSearch < Pow2(pow2) then env.maxSearch else Pow2(pow2)
  }

  lemma ReachGrows(env: Env, a: nat, b: nat)
    requires a <= b
    ensures Reach(env, a) <= Reach(env, b)
  {
    Pow2Monotone(a, b);
  }

  /** Every cell of the window that begins at `start` is occupied. */
  ghost predicate WindowFull<C>(t: Table<C>, start: nat, maxSearch: nat) {
    && start < |t.cells|
    && forall p: nat :: p < |t.cells| && Distance(start, p, |t.cells|) < maxSearch ==> t.Occupied(p)
  }

  /** The free cell that a probe from `start` meets first. */
  ghost predicate FirstFree<C>(t: Table<C>, start: nat, maxSearch: nat, p: nat) {
    && start < |t.cells| && p < |t.cells| && !t.Occupied(p) && Distance(start, p, |t.cells|) < maxSearch
    && forall q: nat :: q < |t.cells| && Distance(start, q, |t.cells|) < Distance(start, p, |t.cells|) ==> t.Occupied(q)
  }

  /** There is one exactly if the window is not full, and only one. */
  lemma FirstFreeOnce<C>(t: Table<C>, start: nat, maxSearch: nat, p: nat, q: nat)
    requires FirstFree(t, start, maxSearch, p) && FirstFree(t, start, maxSearch, q)
    ensures p == q && !WindowFull(t, start, maxSearch)
  {
  }

  /** The pigeonhole behind a full window: at least min(maxSearch, capacity) cells are occupied. */
  lemma FullWindow<C>(env: Env, t: Table<C>, start: nat)
    requires t.Sized() && WindowFull(t, start, env.maxSearch)
    ensures |t.Used()| >= Reach(env, t.pow2)
  {
    ProbedSize(start, Reach(env, t.pow2), |t.cells|);
    SubsetSize(Probed(start, Reach(env, t.pow2), |t.cells|), t.Used());
  }

  lemma {:induction false} ProbedAll(start: nat, n: nat, cap: nat, p: nat)
    requires start < cap && p < cap && Distance(start, p, cap) < n
    ensures p in Probed(start, n, cap)
  {
    if Distance(start, p, cap) < n - 1 {
      ProbedAll(start, n - 1, cap, p);
    } else {
      ProbeReaches(start, p, cap);
    }
  }

  /** Under this random the index hash sends every key to the same place. */
  ghost predicate Colliding(env: Env, random: nat) {
    forall u, v :: env.indexHash(u, random) == env.indexHash(v, random)
  }

  /** If all keys collide then no index, however large, holds more than maxSearch of them. */
  lemma OneWindow(env: Env, t: Table<IndexEntry>, random: nat)
    requires Colliding(env, random) && IndexOk(env, t, random)
    ensures |Entries(t)| <= env.maxSearch
  {
    var n, start := Reach(env, t.pow2), env.indexHash(0, random) % Pow2(t.pow2);
    forall p | p in t.Used()
      ensures p in Probed(start, n, |t.cells|)
    {
      assert InWindow(env, t.pow2, random, t.cells[p].item.key, p);
      ProbedAll(start, n, |t.cells|, p);
    }
    ProbedSize(start, n, |t.cells|);
    SubsetSize(t.Used(), Probed(start, n, |t.cells|));
    EntriesSize(t);
  }

  /** The keys in the window that begins at `start`. */
  ghost function ProbedKeys(t: Table<IndexEntry>, start: nat, maxSearch: nat): (s: set<Pubkey>)
    requires start < |t.cells|
  {
    set p: nat | p < |t.cells| && t.Occupied(p) && Distance(start, p, |t.cells|) < maxSearch :: t.cells[p].item.key
  }

  /** A full window holds min(maxSearch, capacity) distinct keys. */
  lemma FullOfKeys(env: Env, t: Table<IndexEntry>, start: nat)
    requires t.Sized() && UniqueKeys(t) && WindowFull(t, start, env.maxSearch)
    ensures ProbedKeys(t, start, env.maxSearch) <= Entries(t).Keys
    ensures Reach(env, t.pow2) <= |ProbedKeys(t, start, env.maxSearch)| <= |Entries(t)|
  {
    var probed := Probed(start, Reach(env, t.pow2), |t.cells|);
    ProbedSize(start, Reach(env, t.pow2), |t.cells|);
    var m := map p | p in probed :: t.cells[p].item.key;
    InjectiveSize(m);
    assert m.Keys == probed;
    SubsetSize(m.Values, ProbedKeys(t, start, env.maxSearch));
    SubsetSize(ProbedKeys(t, start, env.maxSearch), Entries(t).Keys);
    assert |Entries(t)| == |Entries(t).Keys|;
  }

  /** Every cell of a key's window is occupied. */
  ghost predicate NoCell(env: Env, t: Table<IndexEntry>, random: nat, key: Pubkey) {
    WindowFull(t, IndexStart(env, t.pow2, key, random), env.maxSearch)
  }

  /** An index with some of the keys in which another one of them finds its window full. */
  ghost predicate ShutsOut(env: Env, t: Table<IndexEntry>, random: nat, keys: set<Pubkey>, key: Pubkey) {
    && IndexOk(env, t, random) && Entries(t).Keys <= keys
    && key in keys && key !in Entries(t) && NoCell(env, t, random, key)
  }

  /** Under this random an index of 2^pow2 cells can fill up so that one of the keys finds no cell. */
  ghost predicate Jammed(env: Env, keys: set<Pubkey>, pow2: nat, random: nat) {
    exists t: Table<IndexEntry>, key :: t.pow2 == pow2 && ShutsOut(env, t, random, keys, key)
  }

  ghost predicate MayJam(env: Env, keys: set<Pubkey>, pow2: nat) {
    exists random :: Jammed(env, keys, pow2, random)
  }

  lemma MayJamBy(env: Env, keys: set<Pubkey>, pow2: nat, random: nat)
    requires Jammed(env, keys, pow2, random)
    ensures MayJam(env, keys, pow2)
  {
  }

  /** Keys for which re-indexing may fail at every capacity above 2^pow2, up to the largest. */
  ghost predicate Cramped(env: Env, keys: set<Pubkey>, pow2: nat) {
    forall larger :: pow2 < larger <= MAX_CAPACITY_POW2 ==> MayJam(env, keys, larger)
  }

  /** The capacity that re-indexing ends up with: at every capacity passed over some random leaves a key without a cell. */
  ghost predicate NextLarger(env: Env, keys: set<Pubkey>, pow2: nat, larger: nat) {
    pow2 < larger && forall between :: pow2 < between < larger ==> MayJam(env, keys, between)
  }

  /** With no more keys than a probe of the doubled index visits cells, the index doubles and no more. */
  lemma ExactlyDoubles(env: Env, keys: set<Pubkey>, pow2: nat, larger: nat)
    requires NextLarger(env, keys, pow2, larger) && |keys| <= Reach(env, pow2 + 1)
    ensures larger == pow2 + 1 && Pow2(larger) == 2 * Pow2(pow2)
  {
    hide Jammed, Reach;
    if larger > pow2 + 1 {
      var next := pow2 + 1;
      assert MayJam(env, keys, next);
      var random :| Jammed(env, keys, next, random);
      JammedMany(env, keys, next, random);
    }
  }

  /** It takes more keys than a probe visits cells. */
  lemma JammedMany(env: Env, keys: set<Pubkey>, pow2: nat, random: nat)
    requires Jammed(env, keys, pow2, random)
    ensures |keys| > Reach(env, pow2)
  {
    var t: Table<IndexEntry>, key :| t.pow2 == pow2 && ShutsOut(env, t, random, keys, key);
    FullOfKeys(env, t, IndexStart(env, pow2, key, random));
    hide Reach, UniqueKeys, ProbedKeys;
    assert |Entries(t)| == |Entries(t).Keys|;
    SubsetSize(Entries(t).Keys, keys - {key});
  }

  /** Re-indexing may fail at every larger capacity only with more keys than any probe visits cells. */
  lemma CrampedMany(env: Env, keys: set<Pubkey>, pow2: nat)
    requires Cramped(env, keys, pow2) && pow2 < MAX_CAPACITY_POW2
    ensures |keys| > Reach(env, MAX_CAPACITY_POW2)
  {
    hide Jammed, Reach;
    assert MayJam(env, keys, MAX_CAPACITY_POW2);
    var random :| Jammed(env, keys, MAX_CAPACITY_POW2, random);
    JammedMany(env, keys, MAX_CAPACITY_POW2, random);
  }

  lemma {:induction false} SubsetSize<A>(s: set<A>, t: set<A>)
    requires s <= t
    ensures |s| <= |t|
  {
    if s != {} {
      var x :| x in s;
      SubsetSize(s - {x}, t - {x});
    }
  }
}
