/**
  A bucket storage: a file-backed table of 2^pow2 cells. Every cell has a header that holds the uid
  of its owner (0 when the cell is free) and an item. `Table` is the value of a storage;
  `BucketStorage` is the object that is updated in place.
 */
module Storage {
  import opened Options
  import opened Arithmetic

  const DEFAULT_CAPACITY_POW2: nat := 5
  // 2^56 is the largest capacity whose offsets fit in seven bytes and whose 64-byte
  // index cells can be mapped at all.
  const MAX_CAPACITY_POW2: nat := 56
  const UID_UNLOCKED: nat := 0

  datatype Cell<+C> = Cell(lock: nat, item: C)

  datatype Table<+C> = Table(pow2: nat, cells: seq<Cell<C>>) {
    predicate Sized() {
      pow2 <= MAX_CAPACITY_POW2 && |cells| == Pow2(pow2)
    }

    predicate Occupied(ix: nat) {
      ix < |cells| && cells[ix].lock != UID_UNLOCKED
    }

    /** The indices of the cells in use. */
    ghost function Used(): (s: set<nat>) {
      set ix: nat | ix < |cells| && Occupied(ix)
    }
  }

  /** Changing one cell adds or removes at most that cell. */
  lemma UsedAfter<C>(t: Table<C>, ix: nat, c: Cell<C>)
    requires ix < |t.cells|
    ensures var used := t.(cells := t.cells[ix := c]).Used();
            && used == (if c.lock != UID_UNLOCKED then t.Used() + {ix} else t.Used() - {ix})
            && (c.lock == t.cells[ix].lock ==> used == t.Used())
  {
  }

  /** A table of the given capacity with every cell free. */
  function Vacant<C>(pow2: nat, blank: C): (t: Table<C>)
    ensures forall ix: nat :: !t.Occupied(ix)
  {
    Table(pow2, seq(Pow2(pow2), _ => Cell(UID_UNLOCKED, blank)))
  }

  /** How far apart the old cells lie after the capacity grew from one power of two to another. */
  function Spread(fromPow2: nat, toPow2: nat): (g: nat)
    requires fromPow2 <= toPow2
    ensures g >= 1 && Pow2(fromPow2) * g == Pow2(toPow2)
  {
    Pow2Add(fromPow2, toPow2 - fromPow2);
    Pow2(toPow2 - fromPow2)
  }

  /** What lies in cell `ix` once the first n cells have been copied g apart into vacant space. */
  function SpreadCell<C>(cells: seq<Cell<C>>, n: nat, g: nat, blank: C, ix: nat): Cell<C>
    requires g >= 1 && n <= |cells|
  {
    if ix % g == 0 && ix / g < n then cells[ix / g] else Cell(UID_UNLOCKED, blank)
  }

  lemma SpreadStep<C>(cells: seq<Cell<C>>, n: nat, g: nat, blank: C, ix: nat)
    requires g >= 1 && n < |cells|
    ensures SpreadCell(cells, n + 1, g, blank, ix)
         == if ix == n * g then cells[n] else SpreadCell(cells, n, g, blank, ix)
  {
    ScaleFacts(n, g);
    assert ix == ix / g * g + ix % g;
  }

  lemma SpreadNone<C>(cells: seq<Cell<C>>, g: nat, blank: C, ix: nat)
    requires g >= 1
    ensures SpreadCell(cells, 0, g, blank, ix) == Cell(UID_UNLOCKED, blank)
  {
  }

  /** The table that a resize produces: old cell i becomes cell i * Spread, everything else is free. */
  function Resized<C>(t: Table<C>, pow2: nat, blank: C): (r: Table<C>)
    requires t.pow2 <= pow2
  {
    Table(pow2, seq(Pow2(pow2), ix requires ix >= 0 => SpreadCell(t.cells, |t.cells|, Spread(t.pow2, pow2), blank, ix)))
  }

  /** Cell ix of a resized table, g being the distance between the old cells in it. */
  lemma ResizedCell<C>(t: Table<C>, pow2: nat, blank: C, ix: nat)
    requires t.pow2 <= pow2 && ix < Pow2(pow2)
    ensures Resized(t, pow2, blank).cells[ix] == SpreadCell(t.cells, |t.cells|, Spread(t.pow2, pow2), blank, ix)
  {
  }

  lemma ResizedKeeps<C>(t: Table<C>, pow2: nat, blank: C, ix: nat)
    requires t.Sized() && t.pow2 <= pow2 && ix < |t.cells|
    ensures ix * Spread(t.pow2, pow2) < |Resized(t, pow2, blank).cells|
    ensures Resized(t, pow2, blank).cells[ix * Spread(t.pow2, pow2)] == t.cells[ix]
  {
    var g := Spread(t.pow2, pow2);
    ScaleBelow(ix, |t.cells|, g);
    ScaleFacts(ix, g);
  }

  lemma SpreadOrigin<C>(cells: seq<Cell<C>>, g: nat, blank: C, ix: nat) returns (origin: nat)
    requires g >= 1 && SpreadCell(cells, |cells|, g, blank, ix).lock != UID_UNLOCKED
    ensures ix == origin * g && origin < |cells| && cells[origin].lock != UID_UNLOCKED
  {
    origin := ix / g;
    assert ix == ix / g * g + ix % g;
  }

  lemma ResizedOrigin<C>(t: Table<C>, pow2: nat, blank: C, ix: nat) returns (origin: nat)
    requires t.Sized() && t.pow2 <= pow2 && Resized(t, pow2, blank).Occupied(ix)
    ensures ix == origin * Spread(t.pow2, pow2) && t.Occupied(origin)
  {
    ResizedCell(t, pow2, blank, ix);
    hide Spread, Resized, Pow2, SpreadCell;
    origin := SpreadOrigin(t.cells, Spread(t.pow2, pow2), blank, ix);
  }

  /** Growing through a chain of capacities, one resize after another. */
  function Grown<C>(t: Table<C>, pows: seq<nat>, blank: C): (r: Table<C>)
    requires Ascending(t.pow2, pows)
    ensures r.pow2 >= t.pow2
    decreases |pows|
  {
    if pows == [] then t else Grown(Resized(t, pows[0], blank), pows[1..], blank)
  }

  predicate Ascending(low: nat, pows: seq<nat>)
    decreases |pows|
  {
    pows == [] || (low <= pows[0] <= MAX_CAPACITY_POW2 && Ascending(pows[0], pows[1..]))
  }

  /**
    Offset stability: after any chain of resizes the original cell lies at its offset shifted by the
    capacity difference, whatever the intermediate capacities were.
   */
  lemma {:induction false} GrownKeeps<C>(t: Table<C>, pows: seq<nat>, blank: C, ix: nat)
    requires t.Sized() && Ascending(t.pow2, pows) && ix < |t.cells|
    ensures Grown(t, pows, blank).Sized()
    ensures var r := Grown(t, pows, blank); var loc := ShiftLeft(ix, r.pow2 - t.pow2);
            loc < |r.cells| && r.cells[loc] == t.cells[ix]
    decreases |pows|
  {
    if pows != [] {
      var t1 := Resized(t, pows[0], blank);
      var r := Grown(t, pows, blank);
      ResizedKeeps(t, pows[0], blank, ix);
      ShiftLeftIsScale(ix, t1.pow2 - t.pow2);
      GrownKeeps(t1, pows[1..], blank, ShiftLeft(ix, t1.pow2 - t.pow2));
      ShiftLeftTwice(ix, t1.pow2 - t.pow2, r.pow2 - t1.pow2);
    }
  }

  /** Every occupied cell after any chain of resizes is the image of an originally occupied one. */
  lemma {:induction false} GrownOrigin<C>(t: Table<C>, pows: seq<nat>, blank: C, loc: nat) returns (ix: nat)
    requires t.Sized() && Ascending(t.pow2, pows) && Grown(t, pows, blank).Occupied(loc)
    ensures t.Occupied(ix) && loc == ShiftLeft(ix, Grown(t, pows, blank).pow2 - t.pow2)
    decreases |pows|
  {
    if pows == [] {
      ix := loc;
    } else {
      var t1 := Resized(t, pows[0], blank);
      var r := Grown(t, pows, blank);
      var mid := GrownOrigin(t1, pows[1..], blank, loc);
      ix := ResizedOrigin(t, pows[0], blank, mid);
      ShiftLeftIsScale(ix, t1.pow2 - t.pow2);
      ShiftLeftTwice(ix, t1.pow2 - t.pow2, r.pow2 - t1.pow2);
    }
  }

  /** A resize keeps the number of cells in use. */
  lemma ResizedUsed<C>(t: Table<C>, pow2: nat, blank: C)
    requires t.Sized() && t.pow2 <= pow2
    ensures var g := Spread(t.pow2, pow2);
            Resized(t, pow2, blank).Used() == set ix | ix in t.Used() :: ix * g
    ensures |Resized(t, pow2, blank).Used()| == |t.Used()|
  {
    var g := Spread(t.pow2, pow2);
    var r := Resized(t, pow2, blank);
    var image := set ix | ix in t.Used() :: ix * g;
    forall ix | ix in r.Used()
      ensures ix in image
    {
      var i := ResizedOrigin(t, pow2, blank, ix);
      assert i in t.Used();
    }
    forall ix | ix in image
      ensures ix in r.Used()
    {
      var i :| i in t.Used() && ix == i * g;
      ResizedKeeps(t, pow2, blank, i);
    }
    ScaledSize(t.Used(), g);
  }

  lemma ScaledSize(s: set<nat>, g: nat)
    requires g >= 1
    ensures |set x | x in s :: x * g| == |s|
  {
    var m := map x | x in s :: x * g;
    forall x, y | x in m && y in m && m[x] == m[y]
      ensures x == y
    {
      ScaleInjective(x, y, g);
    }
    InjectiveSize(m);
    assert m.Keys == s;
    assert m.Values == set x | x in s :: x * g;
  }

  /** The shared counter of allocated cells. A resized storage keeps the counter of the old one. */
  class Counter {
    var n: int

    constructor ()
      ensures n == 0
    {
      n := 0;
    }
  }

  class BucketStorage<C> {
    const capacityPow2: nat
    // the number of elements one cell has room for
    const numElems: nat
    const count: Counter
    const mmap: array<Cell<C>>

    predicate Valid() {
      capacityPow2 <= MAX_CAPACITY_POW2 && mmap.Length == Pow2(capacityPow2)
    }

    ghost function View(): (t: Table<C>)
      reads mmap
    {
      Table(capacityPow2, mmap[..])
    }

    constructor (numElems: nat, capacityPow2: nat, blank: C, count: Counter)
      requires capacityPow2 <= MAX_CAPACITY_POW2
      ensures Valid() && fresh(mmap)
      ensures this.numElems == numElems && this.count == count
      ensures View() == Vacant(capacityPow2, blank)
    {
      this.capacityPow2 := capacityPow2;
      this.numElems := numElems;
      this.count := count;
      this.mmap := new Cell<C>[Pow2(capacityPow2)](_ => Cell(UID_UNLOCKED, blank));
    }

    function Capacity(): (c: nat)
    {
      Pow2(capacityPow2)
    }

    predicate IsFree(ix: nat)
      requires ix < mmap.Length
      reads mmap
    {
      mmap[ix].lock == UID_UNLOCKED
    }

    function Uid(ix: nat): (u: Option<nat>)
      requires ix < mmap.Length
      reads mmap
      ensures u == None <==> IsFree(ix)
      ensures u.Some? ==> u.value == mmap[ix].lock
    {
      if mmap[ix].lock == UID_UNLOCKED then None else Some(mmap[ix].lock)
    }

    /** Takes a free cell for `uid`; an occupied cell is left as it is. */
    method Allocate(ix: nat, uid: nat, isResizing: bool) returns (ok: bool)
      requires ix < mmap.Length && uid != UID_UNLOCKED
      modifies mmap, if isResizing then {} else {count}
      ensures ok == old(IsFree(ix))
      ensures mmap[..] == if ok then old(mmap[..])[ix := Cell(uid, old(mmap[ix].item))] else old(mmap[..])
      ensures count.n == old(count.n) + if ok && !isResizing then 1 else 0
    {
      ok := mmap[ix].lock == UID_UNLOCKED;
      if ok {
        mmap[ix] := mmap[ix].(lock := uid);
        if !isResizing {
          count.n := count.n + 1;
        }
      }
    }

    /** Gives a cell back. The caller must name the uid that holds it. */
    method Free(ix: nat, uid: nat)
      requires ix < mmap.Length && uid != UID_UNLOCKED
      requires mmap[ix].lock == uid
      modifies mmap, count
      ensures mmap[..] == old(mmap[..])[ix := Cell(UID_UNLOCKED, old(mmap[ix].item))]
      ensures count.n == old(count.n) - 1
    {
      mmap[ix] := mmap[ix].(lock := UID_UNLOCKED);
      count.n := count.n - 1;
    }

    /** Writes through the mutable reference to the item of cell `ix`. */
    method Put(ix: nat, item: C)
      requires ix < mmap.Length
      modifies mmap
      ensures mmap[..] == old(mmap[..])[ix := Cell(old(mmap[ix].lock), item)]
    {
      mmap[ix] := mmap[ix].(item := item);
    }

    /** Copies every cell of a smaller storage to its place in this vacant one. */
    method CopyContents(source: BucketStorage<C>, ghost blank: C)
      requires Valid() && source.Valid() && source.capacityPow2 <= capacityPow2
      requires mmap != source.mmap && View() == Vacant(capacityPow2, blank)
      modifies mmap
      ensures View() == Resized(source.View(), capacityPow2, blank)
    {
      hide SpreadCell, Spread, Pow2;
      var g := Spread(source.capacityPow2, capacityPow2);
      var n := source.Capacity();
      ghost var cells := source.mmap[..];
      forall ix: nat | ix < mmap.Length
        ensures mmap[ix] == SpreadCell(cells, 0, g, blank, ix)
      {
        assert mmap[ix] == View().cells[ix];
        SpreadNone(cells, g, blank, ix);
      }
      var i := 0;
      while i < n
        invariant 0 <= i <= n
        invariant source.mmap[..] == cells
        invariant forall ix: nat :: ix < mmap.Length ==> mmap[ix] == SpreadCell(cells, i, g, blank, ix)
      {
        ScaleBelow(i, n, g);
        var to := i * g;
        ghost var before := mmap[..];
        mmap[to] := source.mmap[i];
        forall ix: nat | ix < mmap.Length
          ensures mmap[ix] == SpreadCell(cells, i + 1, g, blank, ix)
        {
          assert mmap[ix] == if ix == to then cells[i] else before[ix];
          SpreadStep(cells, i, g, blank, ix);
        }
        i := i + 1;
      }
    }
  }

  /** Copies a slot list into the front of a cell; what lay beyond it stays. */
  method CopyToCell<T>(storage: BucketStorage<seq<T>>, ix: nat, slots: seq<T>)
    requires ix < storage.mmap.Length && |slots| <= storage.numElems
    modifies storage.mmap
    ensures storage.mmap[..] == old(storage.mmap[..])[ix := Cell(old(storage.mmap[ix].lock), Overlay(slots, old(storage.mmap[ix].item)))]
  {
    storage.Put(ix, Overlay(slots, storage.mmap[ix].item));
  }

  /** Takes a free cell for `uid` and copies a slot list into its front. */
  method AllocateAndCopy<T>(storage: BucketStorage<seq<T>>, ix: nat, uid: nat, slots: seq<T>)
    requires ix < storage.mmap.Length && |slots| <= storage.numElems
    requires uid != UID_UNLOCKED && storage.IsFree(ix)
    modifies storage.mmap, storage.count
    ensures storage.mmap[..] == old(storage.mmap[..])[ix := Cell(uid, Overlay(slots, old(storage.mmap[ix].item)))]
    ensures storage.count.n == old(storage.count.n) + 1
  {
    var ok := storage.Allocate(ix, uid, false);
    CopyToCell(storage, ix, slots);
  }

  /** The written part of a cell after `slots` has been copied over its front. */
  function Overlay<T>(slots: seq<T>, cell: seq<T>): (r: seq<T>)
    ensures |r| == if |slots| >= |cell| then |slots| else |cell|
    ensures r[..|slots|] == slots
  {
    if |slots| >= |cell| then slots else slots + cell[|slots|..]
  }

  /** A new storage of the given capacity holding the contents of `source`, if there is one. */
  method NewResized<C>(source: Option<BucketStorage<C>>, capacityPow2: nat, numElems: nat, blank: C)
    returns (r: BucketStorage<C>)
    requires capacityPow2 <= MAX_CAPACITY_POW2
    requires source.Some? ==> source.value.Valid() && source.value.capacityPow2 <= capacityPow2
    ensures fresh(r) && r.Valid() && fresh(r.mmap) && r.numElems == numElems
    ensures source.None? ==> fresh(r.count) && r.count.n == 0 && r.View() == Vacant(capacityPow2, blank)
    ensures source.Some? ==> r.count == source.value.count && r.View() == Resized(source.value.View(), capacityPow2, blank)
  {
    match source
    case None =>
      var count := new Counter();
      r := new BucketStorage(numElems, capacityPow2, blank, count);
    case Some(s) =>
      r := new BucketStorage(numElems, capacityPow2, blank, s.count);
      r.CopyContents(s, blank);
  }
}
