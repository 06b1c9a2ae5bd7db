/**
  A bucket behind a read-write lock. Writers create the bucket on first use and apply a parked
  resize before they do anything else; readers, among them the one that computes a resize, leave
  everything but the parking place alone.
 */
module BucketApis {
  import opened Options
  import opened Arithmetic
  import opened Storage
  import opened IndexEntries
  import opened BucketState
  import opened BucketSteps
  import opened Buckets

  class BucketApi<T> {
    const env: Env
    const count: Counter
    var bucket: Bucket?<T>

    // what is stored, parked resize or not
    ghost var contents: map<Pubkey, Value<T>>
    // occupied data cells that belong to no key
    ghost var leaked: nat
    // the objects whose state belongs to this bucket
    ghost var repr: set<object>

    ghost predicate Valid()
      reads this, repr
      ensures Valid() ==> this in repr && (bucket != null ==> bucket.reallocated in repr)
    {
      && {this, count} <= repr
      && (if bucket == null then count.n == 0 && contents == map[] && leaked == 0
          else && {bucket, bucket.reallocated} <= repr
               && bucket.Objects() <= repr && bucket.ParkedObjects() <= repr
               && bucket.env == env && bucket.index.count == count
               && bucket.Valid() && bucket.ParkedOk()
               && contents == Stored(env, bucket.View()) && leaked == Leaks(env, bucket.View()))
    }

    ghost function Owned(): (s: set<object>)
      reads this
    {
      if bucket == null then {} else {bucket, bucket.reallocated}
    }

    /** The capacity of the index once what is parked has been applied. */
    ghost function IndexPow2(): (r: nat)
      reads this, Owned()
    {
      if bucket == null then DEFAULT_CAPACITY_POW2 else bucket.IndexPow2()
    }

    /** The capacity that data storage d has then, 0 if it is missing. */
    ghost function FinalPow2(d: nat): (r: nat)
      reads this, Owned()
    {
      if bucket == null then 0 else bucket.FinalPow2(d)
    }

    /** Data storage d has then a free cell in every window. */
    ghost predicate FinalRoomy(d: nat)
      requires Valid()
      reads this, repr
    {
      bucket != null && bucket.FinalRoomy(d)
    }

    /** The key is stored, or there is then a free cell in its window of the index. */
    ghost predicate HasRoom(key: Pubkey)
      requires Valid()
      reads this, repr
    {
      if bucket == null then env.maxSearch > 0
      else key in contents || !NoCell(env, bucket.FinalIndex().1, bucket.FinalIndex().0, key)
    }

    /** The list fits in place, or there is room for the key, and for its n slots or for a larger storage. */
    ghost predicate Easy(key: Pubkey, n: nat)
      requires Valid()
      reads this, repr
    {
      var d := CeilLog2(n);
      || InPlace(contents, key, n)
      || (HasRoom(key) && (FinalRoomy(d) || (env.maxSearch >= 2 && FinalPow2(d) < MAX_CAPACITY_POW2)))
    }

    /** There is no room for the key, and no larger index. */
    ghost predicate Doomed(key: Pubkey)
      requires Valid()
      reads this, repr
    {
      !HasRoom(key) && IndexPow2() == MAX_CAPACITY_POW2
    }

    /** With nothing parked both are what they are for the bucket. */
    lemma Unparked(key: Pubkey, n: nat)
      requires Valid() && bucket != null && bucket.reallocated.Idle()
      ensures Easy(key, n) <==> bucket.Easy(key, n)
      ensures Doomed(key) <==> bucket.Doomed(key)
    {
      hide Bucket.Valid, Stored, Leaks, Roomy, NoCell, CeilLog2, InPlace;
    }

    lemma Bounded(d: nat)
      requires Valid()
      ensures IndexPow2() <= MAX_CAPACITY_POW2 && FinalPow2(d) <= MAX_CAPACITY_POW2
    {
      hide StateOk, AllCounted, Counted, Stored, Leaks;
    }

    constructor (env: Env)
      ensures Valid() && this.env == env && contents == map[] && leaked == 0 && fresh(repr)
    {
      this.env := env;
      this.count := new Counter();
      this.bucket := null;
      this.contents, this.leaked := map[], 0;
      new;
      repr := {this, count};
    }

    /** Takes the write lock: afterwards there is a bucket and nothing is parked. */
    method GetWriteBucket()
      requires Valid()
      modifies repr
      ensures Valid() && bucket != null && bucket.reallocated.Idle()
      ensures contents == old(contents) && leaked == old(leaked)
      ensures fresh(repr - old(repr))
      ensures IndexPow2() == old(IndexPow2()) && forall d :: FinalPow2(d) == old(FinalPow2(d))
      ensures forall d :: old(FinalRoomy(d)) ==> FinalRoomy(d)
      ensures forall key :: HasRoom(key) <==> old(HasRoom(key))
    {
      hide Valid, IndexPow2, FinalPow2, Bucket.FinalRoomy, HasRoom;
      if bucket == null {
        Open();
      } else {
        ApplyParked();
      }
    }

    /** Creates the bucket. */
    method Open()
      requires Valid() && bucket == null
      modifies repr
      ensures Valid() && bucket != null && bucket.reallocated.Idle()
      ensures contents == old(contents) && leaked == old(leaked) && fresh(repr - old(repr))
      ensures IndexPow2() == old(IndexPow2()) && forall d :: FinalPow2(d) == old(FinalPow2(d))
      ensures forall key :: HasRoom(key) <==> old(HasRoom(key))
    {
      hide StateOk, AllCounted, Counted, Separate, Stored, Leaks, Bucket.ParkedOk, Roomy, NoCell, Vacant;
      var b := new Bucket(env, count);
      assert Maps(b.data) == {} && Counters(b.data) == {};
      forall key
        ensures NoCell(env, b.index.View(), b.random, key) <==> env.maxSearch == 0
      {
        VacantCell(env, DEFAULT_CAPACITY_POW2, b.random, key);
      }
      bucket := b;
      Sync();
    }

    /** Applies a parked resize, if there is one. */
    method ApplyParked()
      requires Valid() && bucket != null
      modifies repr
      ensures Valid() && bucket != null && bucket.reallocated.Idle()
      ensures contents == old(contents) && leaked == old(leaked) && fresh(repr - old(repr))
      ensures IndexPow2() == old(IndexPow2()) && forall d :: FinalPow2(d) == old(FinalPow2(d))
      ensures forall d :: old(FinalRoomy(d)) ==> FinalRoomy(d)
      ensures forall key :: HasRoom(key) <==> old(HasRoom(key))
    {
      hide Bucket.Valid, Stored, Leaks, Bucket.ParkedOk, Installed, Roomy, Bucket.IndexPow2, Bucket.FinalRoomy, Bucket.FinalPow2;
      hide Bucket.FinalIndex, NoCell;
      bucket.HandleDelayedGrows();
      Sync();
    }

    /** Brings the ghost state up to date after a change of the bucket. */
    ghost method Sync()
      requires bucket != null && bucket.env == env && bucket.index.count == count
      requires bucket.Valid() && (bucket.reallocated.Idle() || bucket.ParkedOk()) && {this, count} <= repr
      modifies this`repr, this`contents, this`leaked
      ensures Valid() && contents == old(Stored(env, bucket.View())) && leaked == old(Leaks(env, bucket.View()))
      ensures repr == old(repr) + {bucket, bucket.reallocated} + old(bucket.Objects() + bucket.ParkedObjects())
      ensures bucket.View() == old(bucket.View()) && bucket.FinalIndex() == old(bucket.FinalIndex())
      ensures forall d :: bucket.FinalRoomy(d) <==> old(bucket.FinalRoomy(d))
      ensures forall key, n :: bucket.Stuck(key, n) <==> old(bucket.Stuck(key, n))
    {
      hide StateOk, AllCounted, Counted, Separate, Stored, Leaks, SameIndex, FitsAt, Roomy, Crowded, Cramped, CeilLog2, NoCell, InPlace;
      contents, leaked := Stored(env, bucket.View()), Leaks(env, bucket.View());
      repr := repr + {bucket, bucket.reallocated} + bucket.Objects() + bucket.ParkedObjects();
    }

    method ReadValue(key: Pubkey) returns (r: Option<Value<T>>)
      requires Valid()
      ensures r == Lookup(contents, key)
    {
      hide StateOk, Stored;
      if bucket == null {
        r := None;
      } else {
        r := bucket.ReadValue(key);
      }
    }

    /** The shared counter is the number of stored keys. */
    method BucketLen() returns (n: int)
      requires Valid()
      ensures n == |contents|
    {
      hide StateOk, Stored;
      if bucket != null {
        KeysStored(env, bucket.View());
      }
      n := count.n;
    }

    method ItemsInRange(range: Option<KeyRange>) returns (items: seq<BucketItem<T>>)
      requires Valid()
      ensures Lists(items, contents, range)
      ensures bucket != null ==>
                && UniqueKeys(bucket.index.View()) && contents.Keys == Entries(bucket.index.View()).Keys
                && items == Listing(contents, bucket.index.View(), |bucket.index.View().cells|, range)
    {
      hide StateOk, Stored;
      if bucket == null {
        items := [];
      } else {
        items := bucket.ItemsInRange(range);
      }
    }

    method DeleteKey(key: Pubkey)
      requires Valid()
      modifies repr
      ensures Valid() && fresh(repr - old(repr))
      ensures contents == old(contents) - {key} && leaked == old(leaked)
    {
      hide Bucket.Valid, Stored, Leaks;
      GetWriteBucket();
      bucket.DeleteKey(key);
      Sync();
    }

    method AddRef(key: Pubkey) returns (r: Option<nat>)
      requires Valid()
      modifies repr
      ensures Valid() && fresh(repr - old(repr)) && leaked == old(leaked)
      ensures r == CountOf(old(contents), key, CountUp) && contents == Recounted(old(contents), key, CountUp)
      ensures r == if key in contents then Some(contents[key].refCount) else None
    {
      hide Bucket.Valid, Stored, Leaks, CountOf, Recounted;
      GetWriteBucket();
      r := bucket.AddRef(key);
      Sync();
    }

    method UnRef(key: Pubkey) returns (r: Option<nat>)
      requires Valid()
      modifies repr
      ensures Valid() && fresh(repr - old(repr)) && leaked == old(leaked)
      ensures r == CountOf(old(contents), key, CountDown) && contents == Recounted(old(contents), key, CountDown)
      ensures r == if key in contents then Some(contents[key].refCount) else None
    {
      hide Bucket.Valid, Stored, Leaks, CountOf, Recounted;
      GetWriteBucket();
      r := bucket.UnRef(key);
      Sync();
    }

    /**
      An attempt to write. An error says exactly what is missing, and growing for it is safe. With
      few keys and leaked cells only a data storage can be missing.
     */
    method TryWrite(key: Pubkey, slots: seq<T>, refCount: nat) returns (r: Outcome)
      requires Valid()
      modifies repr
      ensures Valid() && fresh(repr - old(repr)) && bucket != null && bucket.reallocated.Idle()
      ensures contents == Written(old(contents), key, slots, refCount, r)
      ensures leaked == old(leaked) + if r.Ok? && Leaky(old(contents), key, slots) then 1 else 0
      ensures IndexPow2() == old(IndexPow2()) && forall d :: FinalPow2(d) == old(FinalPow2(d))
      ensures r.Err? ==> GrowSafe(r.error) && Refused(key, |slots|, r.error)
      ensures r.Err? && r.error.DataNoSpace? ==> !old(FinalRoomy(CeilLog2(|slots|))) && (HasRoom(key) <==> old(HasRoom(key)))
      ensures r.Ok? ==> FinalPow2(CeilLog2(|slots|)) > 0
      ensures r.Err? ==> !InPlace(old(contents), key, |slots|)
      ensures r.Err? && r.error.IndexNoSpace? <==> FinalPow2(CeilLog2(|slots|)) > 0 && !old(HasRoom(key))
      ensures r.Err? && Calm(env, old(contents), old(leaked), key) ==> r.error == DataNoSpace(CeilLog2(|slots|), 0)
    {
      hide Valid, Written, Leaky, Calm, IndexPow2, FinalPow2, FinalRoomy, HasRoom, Refused, GrowSafe, CeilLog2, InPlace;
      GetWriteBucket();
      r := TryWriteLocked(key, slots, refCount);
    }

    /** The part of an attempt that runs under the write lock. */
    method TryWriteLocked(key: Pubkey, slots: seq<T>, refCount: nat) returns (r: Outcome)
      requires Valid() && bucket != null && bucket.reallocated.Idle()
      modifies repr
      ensures Valid() && fresh(repr - old(repr)) && bucket != null && bucket.reallocated.Idle()
      ensures contents == Written(old(contents), key, slots, refCount, r)
      ensures leaked == old(leaked) + if r.Ok? && Leaky(old(contents), key, slots) then 1 else 0
      ensures IndexPow2() == old(IndexPow2()) && forall d :: FinalPow2(d) == old(FinalPow2(d))
      ensures r.Err? ==> GrowSafe(r.error) && Refused(key, |slots|, r.error)
      ensures r.Err? && r.error.DataNoSpace? ==> !old(FinalRoomy(CeilLog2(|slots|))) && (HasRoom(key) <==> old(HasRoom(key)))
      ensures r.Ok? ==> FinalPow2(CeilLog2(|slots|)) > 0
      ensures r.Err? ==> !InPlace(old(contents), key, |slots|)
      ensures r.Err? && r.error.IndexNoSpace? <==> FinalPow2(CeilLog2(|slots|)) > 0 && !old(HasRoom(key))
      ensures r.Err? && Calm(env, old(contents), old(leaked), key) ==> r.error == DataNoSpace(CeilLog2(|slots|), 0)
    {
      hide Bucket.Valid, Stored, Leaks, WithCount, Leaky, Roomy, Written, Calm, Bucket.ParkedOk, Crowded, NoCell, InPlace;
      r := bucket.TryWrite(key, slots, refCount);
      Sync();
    }

    /** Why a write of n slots for a key was refused: a full window for a new key, or a data storage with a full window. */
    ghost predicate Refused(key: Pubkey, n: nat, error: BucketMapError)
      requires Valid()
      reads this, repr
    {
      match error
      case IndexNoSpace(pow2) => pow2 == IndexPow2() && bucket != null && key !in contents && Crowded(env, bucket.View(), key)
      case DataNoSpace(d, pow2) => d == CeilLog2(n) && pow2 == FinalPow2(d) && !FinalRoomy(d) && !InPlace(contents, key, n)
    }

    /** Why an insert of n slots for a key gives up. */
    ghost predicate Stuck(key: Pubkey, n: nat)
      requires Valid()
      reads this, repr
    {
      bucket != null && bucket.Stuck(key, n)
    }

    method Insert(key: Pubkey, slots: seq<T>, refCount: nat) returns (ok: bool)
      requires Valid()
      modifies repr
      ensures Valid() && fresh(repr - old(repr))
      ensures ok ==> contents == old(contents)[key := Value(slots, refCount)]
      ensures !ok ==> Touched(old(contents), contents, key, refCount) && Stuck(key, |slots|)
      ensures leaked == old(leaked) + if ok && Leaky(old(contents), key, slots) then 1 else 0
      ensures Calm(env, old(contents), old(leaked), key) ==> ok
      ensures (old(Easy(key, |slots|)) ==> ok) && (old(Doomed(key)) ==> !ok)
    {
      hide Valid, Touched, Leaky, Calm, Stuck, CeilLog2, InPlace, HasRoom, FinalRoomy, FinalPow2, IndexPow2;
      GetWriteBucket();
      ok := InsertLocked(key, slots, refCount);
    }

    /** The part of an insert that runs under the write lock. */
    method InsertLocked(key: Pubkey, slots: seq<T>, refCount: nat) returns (ok: bool)
      requires Valid() && bucket != null && bucket.reallocated.Idle()
      modifies repr
      ensures Valid() && fresh(repr - old(repr))
      ensures ok ==> contents == old(contents)[key := Value(slots, refCount)]
      ensures !ok ==> Touched(old(contents), contents, key, refCount) && Stuck(key, |slots|)
      ensures leaked == old(leaked) + if ok && Leaky(old(contents), key, slots) then 1 else 0
      ensures Calm(env, old(contents), old(leaked), key) ==> ok
      ensures (old(Easy(key, |slots|)) ==> ok) && (old(Doomed(key)) ==> !ok)
    {
      hide Bucket.Valid, Stored, Leaks, Touched, Leaky, Calm, Bucket.Stuck, Bucket.Easy, Bucket.Doomed, Easy, Doomed;
      hide Roomy, Views, CeilLog2, NoCell, InPlace;
      Unparked(key, |slots|);
      ghost var grows;
      ok, grows := bucket.Insert(key, slots, refCount);
      Sync();
    }

    method Update(key: Pubkey, updatefn: Option<Value<T>> -> Option<Value<T>>)
      returns (ok: bool, ghost value: Option<Value<T>>)
      requires Valid()
      modifies repr
      ensures Valid() && fresh(repr - old(repr))
      ensures value.Some? ==> var n := |value.value.slots|; (old(Easy(key, n)) ==> ok) && (old(Doomed(key)) ==> !ok)
      ensures value == updatefn(Lookup(old(contents), key))
      ensures ok ==> contents == Changed(old(contents), key, value)
      ensures !ok ==> value.Some? && Touched(old(contents), contents, key, value.value.refCount)
                      && Stuck(key, |value.value.slots|)
      ensures leaked == old(leaked) + if ok && ChangeLeaks(old(contents), key, value) then 1 else 0
      ensures Calm(env, old(contents), old(leaked), key) ==> ok
    {
      hide Valid, Touched, ChangeLeaks, Changed, Calm, Stuck, CeilLog2, InPlace, HasRoom, FinalRoomy, FinalPow2, IndexPow2;
      GetWriteBucket();
      ok, value := UpdateLocked(key, updatefn);
    }

    /** The part of an update that runs under the write lock. */
    method UpdateLocked(key: Pubkey, updatefn: Option<Value<T>> -> Option<Value<T>>)
      returns (ok: bool, ghost value: Option<Value<T>>)
      requires Valid() && bucket != null && bucket.reallocated.Idle()
      modifies repr
      ensures Valid() && fresh(repr - old(repr))
      ensures value.Some? ==> var n := |value.value.slots|; (old(Easy(key, n)) ==> ok) && (old(Doomed(key)) ==> !ok)
      ensures value == updatefn(Lookup(old(contents), key))
      ensures ok ==> contents == Changed(old(contents), key, value)
      ensures !ok ==> value.Some? && Touched(old(contents), contents, key, value.value.refCount)
                      && Stuck(key, |value.value.slots|)
      ensures leaked == old(leaked) + if ok && ChangeLeaks(old(contents), key, value) then 1 else 0
      ensures Calm(env, old(contents), old(leaked), key) ==> ok
    {
      hide Bucket.Valid, Stored, Leaks, Touched, ChangeLeaks, Changed, Calm, Bucket.Stuck, Bucket.Easy, Bucket.Doomed, Easy, Doomed;
      hide Roomy, Views, CeilLog2, NoCell, InPlace;
      Unparked(key, 0);
      forall n {
        Unparked(key, n);
      }
      ok, value := bucket.Update(key, updatefn);
      Sync();
    }

    /** A grow for this error does not panic. */
    predicate GrowSafe(error: BucketMapError)
      requires Valid()
      reads this, repr
    {
      bucket != null ==> bucket.GrowSafe(error)
    }

    /** Why a grow for an error gives up. */
    ghost predicate GrowStuck(error: BucketMapError)
      reads this, Owned()
    {
      match error
      case DataNoSpace(_, pow2) => NextPow2(pow2) > MAX_CAPACITY_POW2
      case IndexNoSpace(pow2) => bucket != null && bucket.index.capacityPow2 == pow2 && Cramped(env, contents.Keys, pow2)
    }

    /**
      Computes a resize under the read lock. Nothing that a reader can see changes. If there is a
      larger capacity it panics exactly when it is not safe.
     */
    method Grow(error: BucketMapError) returns (r: Growth)
      requires Valid()
      modifies this`repr, this`contents, this`leaked, if bucket == null then {} else {bucket.reallocated}
      ensures Valid() && fresh(repr - old(repr))
      ensures contents == old(contents) && leaked == old(leaked) && bucket == old(bucket)
      ensures r.Panicked? <==> !r.Exhausted? && !old(GrowSafe(error))
      ensures r.Exhausted? ==> GrowStuck(error)
      ensures !r.Fine? ==> unchanged(this) && bucket != null && unchanged(bucket.reallocated)
      ensures r.Fine? && bucket != null && error.DataNoSpace? ==>
                var d, pow2 := error.dataIndex, NextPow2(error.pow2);
                && IndexPow2() == old(IndexPow2()) && FinalPow2(d) == pow2
                && (env.maxSearch >= 2 && old(FinalPow2(d)) < pow2 ==> FinalRoomy(d))
                && forall key :: HasRoom(key) <==> old(HasRoom(key))
      ensures r.Fine? && bucket != null && error.IndexNoSpace? && error.pow2 == bucket.index.capacityPow2 ==>
                && old(IndexPow2()) == error.pow2 && NextLarger(env, contents.Keys, error.pow2, IndexPow2())
                && forall d :: FinalPow2(d) == old(FinalPow2(d))
    {
      hide Valid, NextPow2, FinalPow2, FinalRoomy, HasRoom, IndexPow2, GrowStuck, NextLarger;
      if bucket == null {
        return Fine;
      }
      r := GrowShared(error);
    }

    /** The part of a grow that runs under the read lock of a bucket that exists. */
    method GrowShared(error: BucketMapError) returns (r: Growth)
      requires Valid() && bucket != null
      modifies this`repr, this`contents, this`leaked, bucket.reallocated
      ensures Valid() && fresh(repr - old(repr))
      ensures contents == old(contents) && leaked == old(leaked) && bucket == old(bucket)
      ensures r.Panicked? <==> !r.Exhausted? && !old(GrowSafe(error))
      ensures r.Exhausted? ==> GrowStuck(error)
      ensures !r.Fine? ==> unchanged(this) && unchanged(bucket.reallocated)
      ensures r.Fine? && error.DataNoSpace? ==>
                var d, pow2 := error.dataIndex, NextPow2(error.pow2);
                && IndexPow2() == old(IndexPow2()) && FinalPow2(d) == pow2
                && (env.maxSearch >= 2 && old(FinalPow2(d)) < pow2 ==> FinalRoomy(d))
                && forall key :: HasRoom(key) <==> old(HasRoom(key))
      ensures r.Fine? && error.IndexNoSpace? && error.pow2 == bucket.index.capacityPow2 ==>
                && old(IndexPow2()) == error.pow2 && NextLarger(env, contents.Keys, error.pow2, IndexPow2())
                && forall d :: FinalPow2(d) == old(FinalPow2(d))
    {
      hide Bucket.Valid, Stored, Leaks, Roomy, NextPow2, Cramped, Bucket.ParkedOk, Bucket.FinalPow2, Bucket.FinalRoomy, Bucket.IndexPow2;
      hide Bucket.FinalIndex, Bucket.GrowSafe, NoCell, NextLarger;
      r := bucket.Grow(error);
      if r.Fine? {
        ghost var parked := bucket.ParkedObjects();
        Sync();
        hide Bucket.Objects, Bucket.ParkedObjects;
        forall o | o in repr && o !in old(repr)
          ensures fresh(o)
        {
          assert o in parked;
        }
      }
    }

    /** A refused write that no growth can help is stuck. */
    lemma StuckBy(key: Pubkey, n: nat, error: BucketMapError)
      requires Valid() && bucket != null && bucket.reallocated.Idle()
      requires Refused(key, n, error) && GrowStuck(error)
      ensures Stuck(key, n)
    {
      hide Bucket.Valid, Stored, Leaks, Roomy, Crowded, Cramped, CeilLog2, InPlace;
    }
  }
}
