/**
  The map: a power of two of buckets, each behind its own lock. A key's bucket is given by the
  leading bits of the key.
 */
module BucketMaps {
  import opened Options
  import opened Arithmetic
  import opened Storage
  import opened IndexEntries
  import opened BucketState
  import opened BucketSteps
  import opened Buckets
  import opened BucketApis

  // ---------------------------------------------------------------------------
  // Routing

  type Byte = b: int | 0 <= b < 256
  type Bytes32 = s: seq<Byte> | |s| == 32 witness seq(32, _ => 0)

  /** The number made up of the first n bytes, most significant byte first. */
  function BigEndian(bytes: seq<Byte>, n: nat): (r: nat)
    requires n <= |bytes|
  {
    if n == 0 then 0 else 256 * BigEndian(bytes, n - 1) + bytes[n - 1]
  }

  function FromBytes(bytes: Bytes32): (key: Pubkey) {
    BigEndianBound(bytes, 8);
    Pow2Of64();
    Pubkey(BigEndian(bytes, 8), BigEndian(bytes[8..], 24))
  }

  /** The number of leading zero bits of a 64-bit number. */
  function LeadingZeros(x: nat, bits: nat): (r: nat)
    ensures r <= bits
  {
    if bits == 0 || x >= Pow2(bits - 1) then 0 else 1 + LeadingZeros(x, bits - 1)
  }

  function Log2(x: nat): (r: int) {
    64 - LeadingZeros(x, 64) - 1
  }

  function BucketIx(key: Pubkey, maxBucketsPow2: nat): (ix: nat)
    requires maxBucketsPow2 <= 64
  {
    if maxBucketsPow2 > 0 then ShiftRight(key.high, 64 - maxBucketsPow2) else 0
  }

  /** The shifted logarithm is the exact exponent of a power of two that fits in 64 bits. */
  lemma {:induction false} Log2Exact(k: nat, bits: nat)
    requires k < bits
    ensures LeadingZeros(Pow2(k), bits) == bits - 1 - k
  {
    if k < bits - 1 {
      Pow2Monotone(k + 1, bits - 1);
      Log2Exact(k, bits - 1);
    }
  }

  lemma {:induction false} BigEndianBound(bytes: seq<Byte>, n: nat)
    requires n <= |bytes|
    ensures BigEndian(bytes, n) < Pow2(8 * n)
  {
    if n > 0 {
      BigEndianBound(bytes, n - 1);
      Pow2Add(8 * (n - 1), 8);
      assert Pow2(8) == 256;
    }
  }

  lemma Pow2Of64()
    ensures Pow2(64) == U64_RANGE
  {
    Pow2Of56();
    Pow2Add(56, 8);
    assert Pow2(8) == 256;
  }

  /** Every key has a bucket. */
  lemma BucketIxInRange(key: Pubkey, maxBucketsPow2: nat)
    requires maxBucketsPow2 <= 64
    ensures BucketIx(key, maxBucketsPow2) < Pow2(maxBucketsPow2)
  {
    Pow2Of64();
    hide Pow2;
    if maxBucketsPow2 > 0 {
      ShiftRightBelow(key.high, 64 - maxBucketsPow2, maxBucketsPow2);
    } else {
      Pow2Monotone(0, 0);
    }
  }

  /** Byte order. */
  predicate BytesLeq(a: seq<Byte>, b: seq<Byte>)
    requires |a| == |b|
  {
    a == [] || a[0] < b[0] || (a[0] == b[0] && BytesLeq(a[1..], b[1..]))
  }

  lemma {:induction false} BigEndianMonotone(a: seq<Byte>, b: seq<Byte>, n: nat)
    requires |a| == |b| && n <= |a| && BytesLeq(a, b)
    ensures BigEndian(a, n) <= BigEndian(b, n)
    ensures n > 0 && a[..n] != b[..n] ==> BigEndian(a, n) < BigEndian(b, n)
  {
    if n > 0 {
      BigEndianMonotone(a, b, n - 1);
      if a[..n - 1] == b[..n - 1] {
        PrefixOrder(a, b, n - 1);
        SamePrefix(a, b, n - 1);
      }
      assert a[..n] == a[..n - 1] + [a[n - 1]] && b[..n] == b[..n - 1] + [b[n - 1]];
    }
  }

  lemma {:induction false} SamePrefix(a: seq<Byte>, b: seq<Byte>, n: nat)
    requires |a| == |b| && n <= |a| && a[..n] == b[..n]
    ensures BigEndian(a, n) == BigEndian(b, n)
  {
    if n > 0 {
      assert a[..n - 1] == a[..n][..n - 1] && b[..n - 1] == b[..n][..n - 1];
      SamePrefix(a, b, n - 1);
      assert a[n - 1] == a[..n][n - 1] && b[n - 1] == b[..n][n - 1];
    }
  }

  lemma {:induction false} PrefixOrder(a: seq<Byte>, b: seq<Byte>, n: nat)
    requires |a| == |b| && n < |a| && BytesLeq(a, b) && a[..n] == b[..n]
    ensures a[n] <= b[n]
  {
    if n > 0 {
      assert a[0] == a[..n][0] && b[0] == b[..n][0];
      assert a[1..][..n - 1] == a[..n][1..] && b[1..][..n - 1] == b[..n][1..];
      PrefixOrder(a[1..], b[1..], n - 1);
    }
  }

  lemma {:induction false} BytesLeqDrop(a: seq<Byte>, b: seq<Byte>, n: nat)
    requires |a| == |b| && n <= |a| && BytesLeq(a, b) && a[..n] == b[..n]
    ensures BytesLeq(a[n..], b[n..])
    decreases n
  {
    if n > 0 {
      assert a[0] == a[..n][0] && b[0] == b[..n][0];
      assert a[1..][..n - 1] == a[..n][1..] && b[1..][..n - 1] == b[..n][1..];
      BytesLeqDrop(a[1..], b[1..], n - 1);
      assert a[1..][n - 1..] == a[n..] && b[1..][n - 1..] == b[n..];
    }
  }

  lemma {:induction false} BytesLeqTotal(a: seq<Byte>, b: seq<Byte>)
    requires |a| == |b|
    ensures BytesLeq(a, b) || BytesLeq(b, a)
    decreases |a|
  {
    if a != [] {
      BytesLeqTotal(a[1..], b[1..]);
    }
  }

  lemma BytesOrderOneWay(a: Bytes32, b: Bytes32)
    requires BytesLeq(a, b) && a != b
    ensures KeyLeq(FromBytes(a), FromBytes(b)) && FromBytes(a) != FromBytes(b)
  {
    hide BigEndian, BytesLeq;
    BigEndianMonotone(a, b, 8);
    if a[..8] == b[..8] {
      SamePrefix(a, b, 8);
      BytesLeqDrop(a, b, 8);
      assert a == a[..8] + a[8..] && b == b[..8] + b[8..];
      assert a[8..][..24] == a[8..] && b[8..][..24] == b[8..];
      BigEndianMonotone(a[8..], b[8..], 24);
    }
  }

  /** Distinct byte strings are distinct keys, in the same order. */
  lemma BytesOrder(a: Bytes32, b: Bytes32)
    ensures FromBytes(a) == FromBytes(b) <==> a == b
    ensures KeyLeq(FromBytes(a), FromBytes(b)) <==> BytesLeq(a, b)
  {
    hide FromBytes;
    BytesLeqTotal(a, b);
    if a != b {
      if BytesLeq(a, b) {
        BytesOrderOneWay(a, b);
      }
      if BytesLeq(b, a) {
        BytesOrderOneWay(b, a);
      }
    }
  }

  /** Routing respects the order of the keys, so every bucket holds one contiguous range of them. */
  lemma BucketIxMonotone(a: Pubkey, b: Pubkey, maxBucketsPow2: nat)
    requires maxBucketsPow2 <= 64 && KeyLeq(a, b)
    ensures BucketIx(a, maxBucketsPow2) <= BucketIx(b, maxBucketsPow2)
  {
    if maxBucketsPow2 > 0 {
      ShiftRightMonotone(a.high, b.high, 64 - maxBucketsPow2);
    }
  }

  // ---------------------------------------------------------------------------
  // The union of the buckets

  /** Every key is stored in the bucket it is routed to. */
  ghost predicate Routed<T>(parts: seq<map<Pubkey, Value<T>>>, pow2: nat)
    requires pow2 <= 64
  {
    forall i: nat, k :: i < |parts| && k in parts[i] ==> BucketIx(k, pow2) == i
  }

  /** The plain map that routed parts make up. */
  ghost function Merged<T>(parts: seq<map<Pubkey, Value<T>>>): (m: map<Pubkey, Value<T>>) {
    if parts == [] then map[] else Merged(parts[..|parts| - 1]) + parts[|parts| - 1]
  }

  lemma {:induction false} MergedAt<T>(parts: seq<map<Pubkey, Value<T>>>, pow2: nat, key: Pubkey)
    requires pow2 <= 64 && Routed(parts, pow2)
    ensures var ix := BucketIx(key, pow2);
            Lookup(Merged(parts), key) == if ix < |parts| then Lookup(parts[ix], key) else None
  {
    if parts != [] {
      var rest := parts[..|parts| - 1];
      assert Routed(rest, pow2) by {
        assert forall i: nat :: i < |rest| ==> rest[i] == parts[i];
      }
      MergedAt(rest, pow2, key);
    }
  }

  /** A change of one key in its bucket is the same change in the whole map. */
  lemma MergedChange<T>(parts: seq<map<Pubkey, Value<T>>>, pow2: nat, key: Pubkey, part: map<Pubkey, Value<T>>)
    requires pow2 <= 64 && Routed(parts, pow2) && BucketIx(key, pow2) < |parts|
    requires part - {key} == parts[BucketIx(key, pow2)] - {key}
    ensures var parts' := parts[BucketIx(key, pow2) := part];
            && Routed(parts', pow2)
            && Lookup(Merged(parts'), key) == Lookup(part, key)
            && Merged(parts') - {key} == Merged(parts) - {key}
  {
    var ix := BucketIx(key, pow2);
    var parts' := parts[ix := part];
    assert Routed(parts', pow2) by {
      forall i: nat, k | i < |parts'| && k in parts'[i]
        ensures BucketIx(k, pow2) == i
      {
        assert i == ix && k != key ==> k in part - {key};
      }
    }
    MergedAt(parts', pow2, key);
    forall k | k != key
      ensures Lookup(Merged(parts'), k) == Lookup(Merged(parts), k)
    {
      MergedAt(parts', pow2, k);
      MergedAt(parts, pow2, k);
      assert k in part <==> k in part - {key};
    }
    SameElsewhere(Merged(parts'), Merged(parts), key);
  }

  lemma SameElsewhere<T>(m: map<Pubkey, Value<T>>, m': map<Pubkey, Value<T>>, key: Pubkey)
    requires forall k :: k != key ==> Lookup(m, k) == Lookup(m', k)
    ensures m - {key} == m' - {key}
  {
    assert forall k :: k in m - {key} ==> Lookup(m, k) == Lookup(m', k) && k in m' - {key};
    assert forall k :: k in m' - {key} ==> Lookup(m, k) == Lookup(m', k) && k in m - {key};
  }

  lemma SetOne<T>(m: map<Pubkey, Value<T>>, m': map<Pubkey, Value<T>>, key: Pubkey, r: Option<Value<T>>)
    requires m' - {key} == m - {key} && Lookup(m', key) == r
    ensures m' == if r.Some? then m[key := r.value] else m - {key}
  {
    assert forall k :: k != key ==> (k in m' <==> k in m' - {key}) && (k in m <==> k in m - {key});
    assert forall k :: k != key && k in m' ==> m'[k] == (m' - {key})[k];
    assert forall k :: k != key && k in m ==> m[k] == (m - {key})[k];
  }

  /** Maps that agree at a key and everywhere else are the same. */
  lemma SameAt<T>(m: map<Pubkey, Value<T>>, m': map<Pubkey, Value<T>>, key: Pubkey)
    requires m' - {key} == m - {key} && Lookup(m', key) == Lookup(m, key)
    ensures m' == m
  {
    SetOne(m, m', key, Lookup(m, key));
  }

  /** The part of a map that is routed to one bucket. */
  ghost function Part<T>(m: map<Pubkey, Value<T>>, pow2: nat, ix: nat): (r: map<Pubkey, Value<T>>)
    requires pow2 <= 64
  {
    map k | k in m && BucketIx(k, pow2) == ix :: m[k]
  }

  lemma PartIs<T>(parts: seq<map<Pubkey, Value<T>>>, pow2: nat, ix: nat)
    requires pow2 <= 64 && Routed(parts, pow2) && ix < |parts|
    ensures Part(Merged(parts), pow2, ix) == parts[ix]
  {
    hide BucketIx;
    var m, part := Merged(parts), Part(Merged(parts), pow2, ix);
    forall k
      ensures Lookup(part, k) == Lookup(parts[ix], k)
    {
      MergedAt(parts, pow2, k);
      assert k in parts[ix] ==> BucketIx(k, pow2) == ix;
    }
    assert forall k :: k in part ==> Lookup(part, k) == Lookup(parts[ix], k) && k in parts[ix];
    assert forall k :: k in parts[ix] ==> Lookup(part, k) == Lookup(parts[ix], k) && k in part;
  }

  /** Whatever happens to one bucket at one key happens to the map at that key. */
  lemma WrittenMerged<T>(m: map<Pubkey, Value<T>>, m': map<Pubkey, Value<T>>, part: map<Pubkey, Value<T>>,
                         key: Pubkey, slots: seq<T>, refCount: nat, r: Outcome)
    requires Lookup(m, key) == Lookup(part, key) && m' - {key} == m - {key}
    requires Lookup(m', key) == Lookup(Written(part, key, slots, refCount, r), key)
    ensures m' == Written(m, key, slots, refCount, r)
  {
    SameAt(Written(m, key, slots, refCount, r), m', key);
  }

  lemma TouchedMerged<T>(m: map<Pubkey, Value<T>>, m': map<Pubkey, Value<T>>, part: map<Pubkey, Value<T>>,
                         part': map<Pubkey, Value<T>>, key: Pubkey, refCount: nat)
    requires Lookup(m, key) == Lookup(part, key) && m' - {key} == m - {key}
    requires Lookup(m', key) == Lookup(part', key) && Touched(part, part', key, refCount)
    ensures Touched(m, m', key, refCount)
  {
    if part' == part {
      SameAt(m, m', key);
    } else {
      SameAt(WithCount(m, key, refCount), m', key);
    }
  }

  lemma ChangedMerged<T>(m: map<Pubkey, Value<T>>, m': map<Pubkey, Value<T>>, part: map<Pubkey, Value<T>>,
                         key: Pubkey, value: Option<Value<T>>)
    requires m' - {key} == m - {key} && Lookup(m', key) == Lookup(Changed(part, key, value), key)
    ensures m' == Changed(m, key, value)
  {
    SameAt(Changed(m, key, value), m', key);
  }

  lemma WrittenElsewhere<T>(m: map<Pubkey, Value<T>>, key: Pubkey, slots: seq<T>, refCount: nat, r: Outcome)
    ensures Written(m, key, slots, refCount, r) - {key} == m - {key}
  {
  }

  lemma ChangedElsewhere<T>(m: map<Pubkey, Value<T>>, key: Pubkey, value: Option<Value<T>>)
    ensures Changed(m, key, value) - {key} == m - {key}
  {
  }

  lemma RecountedElsewhere<T>(m: map<Pubkey, Value<T>>, key: Pubkey, count: nat -> nat)
    ensures Recounted(m, key, count) - {key} == m - {key}
  {
  }

  lemma RecountMerged<T>(m: map<Pubkey, Value<T>>, m': map<Pubkey, Value<T>>, part: map<Pubkey, Value<T>>, key: Pubkey, count: nat -> nat)
    requires Lookup(m, key) == Lookup(part, key)
    requires m' - {key} == m - {key} && Lookup(m', key) == Lookup(Recounted(part, key, count), key)
    ensures m' == Recounted(m, key, count) && CountOf(part, key, count) == CountOf(m, key, count)
  {
    SetOne(m, m', key, Lookup(Recounted(part, key, count), key));
  }

  /** The exponent that a new map computes is that of its number of buckets. */
  lemma Log2Correct(n: nat)
    requires IsPowerOfTwo(n)
    ensures 0 <= Log2(n) < 64 && Pow2(Log2(n)) == n
  {
    hide Pow2, LeadingZeros;
    var k: nat :| k < 64 && n == Pow2(k);
    Log2Exact(k, 64);
  }

  lemma {:induction false} MergedEmpty<T>(parts: seq<map<Pubkey, Value<T>>>)
    requires forall i: nat :: i < |parts| ==> parts[i] == map[]
    ensures Merged(parts) == map[]
  {
    if parts != [] {
      MergedEmpty(parts[..|parts| - 1]);
    }
  }

  lemma MergedStep<T>(parts: seq<map<Pubkey, Value<T>>>, pow2: nat, i: nat)
    requires pow2 <= 64 && Routed(parts, pow2) && i < |parts|
    ensures Merged(parts[..i + 1]) == Merged(parts[..i]) + parts[i]
    ensures Merged(parts[..i]).Keys !! parts[i].Keys
  {
    assert parts[..i + 1][..i] == parts[..i];
    assert Routed(parts[..i], pow2);
    forall k | k in Merged(parts[..i])
      ensures k !in parts[i]
    {
      MergedAt(parts[..i], pow2, k);
    }
  }

  /** Listings of two maps without common keys, one after the other, list their union. */
  lemma ListsConcat<T>(a: seq<BucketItem<T>>, b: seq<BucketItem<T>>,
                       m: map<Pubkey, Value<T>>, n: map<Pubkey, Value<T>>, range: Option<KeyRange>)
    requires Lists(a, m, range) && Lists(b, n, range) && m.Keys !! n.Keys
    ensures Lists(a + b, m + n, range)
  {
    hide Selects;
    var c := a + b;
    forall i: nat | i < |c|
      ensures Listed(c[i], m + n, range)
    {
      assert if i < |a| then Listed(a[i], m, range) else Listed(b[i - |a|], n, range);
    }
    forall i: nat, j: nat | i < j < |c|
      ensures c[i].pubkey != c[j].pubkey
    {
      if i < |a| <= j {
        assert Listed(a[i], m, range) && Listed(b[j - |a|], n, range);
      }
    }
    forall k | k in m + n && Selects(range, k)
      ensures exists i: nat :: i < |c| && c[i].pubkey == k
    {
      if k in m {
        var i: nat :| i < |a| && a[i].pubkey == k;
        assert c[i].pubkey == k;
      } else {
        var i: nat :| i < |b| && b[i].pubkey == k;
        assert c[|a| + i].pubkey == k;
      }
    }
  }

  /** The items of one bucket after those of another. */
  ghost predicate ByBucket<T>(items: seq<BucketItem<T>>, pow2: nat)
    requires pow2 <= 64
  {
    forall i: nat, j: nat :: i < j < |items| ==> BucketIx(items[i].pubkey, pow2) <= BucketIx(items[j].pubkey, pow2)
  }

  lemma ByBucketNone<T>(pow2: nat)
    requires pow2 <= 64
    ensures ByBucket<T>([], pow2)
  {
  }

  lemma OfBucket<T>(items: seq<BucketItem<T>>, parts: seq<map<Pubkey, Value<T>>>, pow2: nat, ix: nat, range: Option<KeyRange>)
    requires pow2 <= 64 && ix < |parts| && Routed(parts, pow2) && Lists(items, parts[ix], range)
    ensures forall j: nat :: j < |items| ==> BucketIx(items[j].pubkey, pow2) == ix
  {
    hide BucketIx, Selects;
    forall j: nat | j < |items|
      ensures BucketIx(items[j].pubkey, pow2) == ix
    {
      assert Listed(items[j], parts[ix], range);
    }
  }

  lemma ByBucketNext<T>(items: seq<BucketItem<T>>, more: seq<BucketItem<T>>, pow2: nat, ix: nat)
    requires pow2 <= 64 && ByBucket(items, pow2)
    requires forall j: nat :: j < |items| ==> BucketIx(items[j].pubkey, pow2) < ix
    requires forall j: nat :: j < |more| ==> BucketIx(more[j].pubkey, pow2) == ix
    ensures ByBucket(items + more, pow2)
    ensures forall j: nat :: j < |items + more| ==> BucketIx((items + more)[j].pubkey, pow2) < ix + 1
  {
    hide BucketIx;
  }

  ghost predicate IsPowerOfTwo(n: nat) {
    exists k: nat :: k < 64 && n == Pow2(k)
  }

  /** Empty buckets that share nothing. */
  method NewBuckets<T>(env: Env, n: nat) returns (apis: seq<BucketApi<T>>)
    ensures |apis| == n
    ensures forall i: nat :: i < n ==>
              && apis[i].env == env && apis[i].Valid() && apis[i].contents == map[] && apis[i].leaked == 0
              && fresh(apis[i]) && fresh(apis[i].repr)
    ensures forall i: nat, j: nat :: i < n && j < n && i != j ==> apis[i].repr !! apis[j].repr
  {
    hide BucketApi.Valid;
    apis := [];
    while |apis| < n
      invariant |apis| <= n
      invariant forall i: nat :: i < |apis| ==>
                  && apis[i].env == env && apis[i].Valid() && apis[i].contents == map[] && apis[i].leaked == 0
                  && fresh(apis[i]) && fresh(apis[i].repr)
      invariant forall i: nat, j: nat :: i < |apis| && j < |apis| && i != j ==> apis[i].repr !! apis[j].repr
      decreases n - |apis|
    {
      var api := new BucketApi<T>(env);
      apis := apis + [api];
    }
  }

  class BucketMap<T> {
    const env: Env
    const maxBucketsPow2: nat
    const buckets: seq<BucketApi<T>>

    constructor (env: Env, maxBuckets: nat)
      requires IsPowerOfTwo(maxBuckets)
      ensures Valid() && this.env == env && |buckets| == maxBuckets && Contents() == map[] && fresh(Repr())
      ensures forall i: nat :: i < |buckets| ==> Leaked()[i] == 0
    {
      hide BucketApi.Valid, BucketIx, Log2, Pow2, IsPowerOfTwo;
      var apis := NewBuckets<T>(env, maxBuckets);
      Log2Correct(maxBuckets);
      this.env := env;
      this.buckets := apis;
      this.maxBucketsPow2 := Log2(maxBuckets);
      new;
      MergedEmpty(Parts());
    }

    ghost function Parts(): (parts: seq<map<Pubkey, Value<T>>>)
      reads buckets
      ensures |parts| == |buckets|
    {
      seq(|buckets|, i requires 0 <= i < |buckets| reads buckets => buckets[i].contents)
    }

    /** The leaked cells of each bucket. */
    ghost function Leaked(): (counts: seq<nat>)
      reads buckets
      ensures |counts| == |buckets|
    {
      seq(|buckets|, i requires 0 <= i < |buckets| reads buckets => buckets[i].leaked)
    }

    /** What the map stores. */
    ghost function Contents(): (m: map<Pubkey, Value<T>>)
      reads buckets
    {
      Merged(Parts())
    }

    ghost predicate Valid()
      reads buckets, Repr()
    {
      && maxBucketsPow2 < 64 && |buckets| == Pow2(maxBucketsPow2)
      && (forall i: nat :: i < |buckets| ==> buckets[i].env == env && buckets[i].Valid())
      && (forall i: nat, j: nat :: i < |buckets| && j < |buckets| && i != j ==> buckets[i].repr !! buckets[j].repr)
      && Routed(Parts(), maxBucketsPow2)
    }

    ghost function Repr(): (s: set<object>)
      reads buckets
    {
      set b, o | b in buckets && o in b.repr :: o
    }

    /** The bucket that a key is routed to. */
    function GetBucket(key: Pubkey): (b: BucketApi<T>)
      requires maxBucketsPow2 < 64 && |buckets| == Pow2(maxBucketsPow2)
      ensures b in buckets
    {
      BucketIxInRange(key, maxBucketsPow2);
      buckets[BucketIx(key, maxBucketsPow2)]
    }

    /** Few enough keys in a key's bucket, and leaked cells, that no window can be full. */
    ghost predicate CalmAt(key: Pubkey)
      requires maxBucketsPow2 < 64 && |buckets| == Pow2(maxBucketsPow2)
      reads buckets
    {
      Calm(env, Part(Contents(), maxBucketsPow2, BucketIx(key, maxBucketsPow2)), GetBucket(key).leaked, key)
    }

    /** If only the bucket of `key` changed, and that only at `key`, then so did the map. */
    twostate lemma OneBucketChanged(key: Pubkey)
      requires old(Valid()) && BucketIx(key, maxBucketsPow2) < |buckets|
      requires var b := buckets[BucketIx(key, maxBucketsPow2)];
               && b.Valid() && (forall o :: o in b.repr && o !in old(b.repr) ==> fresh(o))
               && b.contents - {key} == old(b.contents) - {key}
      requires forall j: nat :: j < |buckets| && j != BucketIx(key, maxBucketsPow2) ==>
                 buckets[j].repr == old(buckets[j].repr) && buckets[j].contents == old(buckets[j].contents)
                 && buckets[j].leaked == old(buckets[j].leaked) && buckets[j].Valid()
      ensures Valid()
      ensures Lookup(Contents(), key) == Lookup(buckets[BucketIx(key, maxBucketsPow2)].contents, key)
      ensures Contents() - {key} == old(Contents()) - {key}
      ensures Leaked() == old(Leaked())[BucketIx(key, maxBucketsPow2) := buckets[BucketIx(key, maxBucketsPow2)].leaked]
    {
      hide BucketIx, BucketApi.Valid;
      var ix := BucketIx(key, maxBucketsPow2);
      MergedChange(old(Parts()), maxBucketsPow2, key, buckets[ix].contents);
      assert Parts() == old(Parts())[ix := buckets[ix].contents];
    }

    method ReadValue(key: Pubkey) returns (r: Option<Value<T>>)
      requires Valid()
      ensures r == Lookup(Contents(), key)
    {
      hide BucketIx, BucketApi.Valid;
      BucketIxInRange(key, maxBucketsPow2);
      MergedAt(Parts(), maxBucketsPow2, key);
      r := buckets[BucketIx(key, maxBucketsPow2)].ReadValue(key);
    }

    method DeleteKey(key: Pubkey)
      requires Valid()
      modifies Repr()
      ensures Valid() && fresh(Repr() - old(Repr()))
      ensures Contents() == old(Contents()) - {key}
    {
      hide BucketIx, BucketApi.Valid;
      BucketIxInRange(key, maxBucketsPow2);
      var ix := BucketIx(key, maxBucketsPow2);
      buckets[ix].DeleteKey(key);
      OneBucketChanged(key);
      SetOne(old(Contents()), Contents(), key, None);
    }

    method AddRef(key: Pubkey) returns (r: Option<nat>)
      requires Valid()
      modifies Repr()
      ensures Valid() && fresh(Repr() - old(Repr()))
      ensures r == CountOf(old(Contents()), key, CountUp) && Contents() == Recounted(old(Contents()), key, CountUp)
      ensures r == if key in Contents() then Some(Contents()[key].refCount) else None
    {
      hide BucketIx, BucketApi.Valid, CountUp, CountOf, Recounted;
      BucketIxInRange(key, maxBucketsPow2);
      var ix := BucketIx(key, maxBucketsPow2);
      MergedAt(Parts(), maxBucketsPow2, key);
      ghost var m, part := Contents(), buckets[ix].contents;
      RecountedElsewhere(part, key, CountUp);
      r := buckets[ix].AddRef(key);
      OneBucketChanged(key);
      RecountMerged(m, Contents(), part, key, CountUp);
    }

    method UnRef(key: Pubkey) returns (r: Option<nat>)
      requires Valid()
      modifies Repr()
      ensures Valid() && fresh(Repr() - old(Repr()))
      ensures r == CountOf(old(Contents()), key, CountDown) && Contents() == Recounted(old(Contents()), key, CountDown)
      ensures r == if key in Contents() then Some(Contents()[key].refCount) else None
    {
      hide BucketIx, BucketApi.Valid, CountDown, CountOf, Recounted;
      BucketIxInRange(key, maxBucketsPow2);
      var ix := BucketIx(key, maxBucketsPow2);
      MergedAt(Parts(), maxBucketsPow2, key);
      ghost var m, part := Contents(), buckets[ix].contents;
      RecountedElsewhere(part, key, CountDown);
      r := buckets[ix].UnRef(key);
      OneBucketChanged(key);
      RecountMerged(m, Contents(), part, key, CountDown);
    }

    /**
      Stores a value unless the key's bucket is stuck; with few keys and leaked cells in that bucket
      it never is.
     */
    method Insert(key: Pubkey, slots: seq<T>, refCount: nat) returns (ok: bool)
      requires Valid()
      modifies Repr()
      ensures Valid() && fresh(Repr() - old(Repr()))
      ensures ok ==> Contents() == old(Contents())[key := Value(slots, refCount)]
      ensures !ok ==> Touched(old(Contents()), Contents(), key, refCount) && GetBucket(key).Stuck(key, |slots|)
      ensures old(CalmAt(key)) ==> ok
      ensures (old(GetBucket(key).Easy(key, |slots|)) ==> ok) && (old(GetBucket(key).Doomed(key)) ==> !ok)
    {
      hide BucketIx, BucketApi.Valid, Leaky, Touched, Calm, BucketApi.Stuck, BucketApi.Easy, BucketApi.Doomed;
      BucketIxInRange(key, maxBucketsPow2);
      PartIs(Parts(), maxBucketsPow2, BucketIx(key, maxBucketsPow2));
      MergedAt(Parts(), maxBucketsPow2, key);
      ghost var m, part := Contents(), GetBucket(key).contents;
      ok := GetBucket(key).Insert(key, slots, refCount);
      if ok {
        ChangedElsewhere(part, key, Some(Value(slots, refCount)));
        OneBucketChanged(key);
        SetOne(m, Contents(), key, Some(Value(slots, refCount)));
      } else {
        TouchedElsewhere(part, GetBucket(key).contents, key, refCount);
        OneBucketChanged(key);
        TouchedMerged(m, Contents(), part, GetBucket(key).contents, key, refCount);
      }
    }

    /** An attempt to store a value; the outcome tells what happened to the map. */
    method TryInsert(key: Pubkey, slots: seq<T>, refCount: nat) returns (r: Outcome)
      requires Valid()
      modifies Repr()
      ensures Valid() && fresh(Repr() - old(Repr()))
      ensures Contents() == Written(old(Contents()), key, slots, refCount, r)
      ensures r.Err? ==> GetBucket(key).GrowSafe(r.error) && GetBucket(key).Refused(key, |slots|, r.error)
      ensures r.Err? && r.error.IndexNoSpace? <==>
                GetBucket(key).FinalPow2(CeilLog2(|slots|)) > 0 && !old(GetBucket(key).HasRoom(key))
      ensures r.Err? && r.error.DataNoSpace? ==> !old(GetBucket(key).FinalRoomy(CeilLog2(|slots|)))
      ensures r.Err? && old(CalmAt(key)) ==> r.error == DataNoSpace(CeilLog2(|slots|), 0)
    {
      hide BucketIx, BucketApi.Valid, Leaky, Written, Calm, BucketApi.Refused, BucketApi.GrowSafe, CeilLog2;
      hide BucketApi.HasRoom, BucketApi.FinalRoomy, BucketApi.FinalPow2;
      BucketIxInRange(key, maxBucketsPow2);
      PartIs(Parts(), maxBucketsPow2, BucketIx(key, maxBucketsPow2));
      MergedAt(Parts(), maxBucketsPow2, key);
      ghost var m, part := Contents(), GetBucket(key).contents;
      r := GetBucket(key).TryWrite(key, slots, refCount);
      WrittenElsewhere(part, key, slots, refCount, r);
      OneBucketChanged(key);
      WrittenMerged(m, Contents(), part, key, slots, refCount, r);
    }

    method Update(key: Pubkey, updatefn: Option<Value<T>> -> Option<Value<T>>)
      returns (ok: bool, ghost value: Option<Value<T>>)
      requires Valid()
      modifies Repr()
      ensures Valid() && fresh(Repr() - old(Repr()))
      ensures value.Some? ==>
                var n := |value.value.slots|;
                (old(GetBucket(key).Easy(key, n)) ==> ok) && (old(GetBucket(key).Doomed(key)) ==> !ok)
      ensures value == updatefn(Lookup(old(Contents()), key))
      ensures ok ==> Contents() == Changed(old(Contents()), key, value)
      ensures !ok ==> value.Some? && Touched(old(Contents()), Contents(), key, value.value.refCount)
                      && GetBucket(key).Stuck(key, |value.value.slots|)
      ensures old(CalmAt(key)) ==> ok
    {
      hide BucketIx, BucketApi.Valid, ChangeLeaks, Touched, Changed, Calm, BucketApi.Stuck, BucketApi.Easy, BucketApi.Doomed;
      BucketIxInRange(key, maxBucketsPow2);
      PartIs(Parts(), maxBucketsPow2, BucketIx(key, maxBucketsPow2));
      MergedAt(Parts(), maxBucketsPow2, key);
      ghost var m, part := Contents(), GetBucket(key).contents;
      ok, value := GetBucket(key).Update(key, updatefn);
      if ok {
        ChangedElsewhere(part, key, value);
        OneBucketChanged(key);
        ChangedMerged(m, Contents(), part, key, value);
      } else {
        TouchedElsewhere(part, GetBucket(key).contents, key, value.value.refCount);
        OneBucketChanged(key);
        TouchedMerged(m, Contents(), part, GetBucket(key).contents, key, value.value.refCount);
      }
    }

    /** The items of all buckets, one bucket after another. */
    method AllItems(range: Option<KeyRange>) returns (items: seq<BucketItem<T>>)
      requires Valid()
      ensures Lists(items, Contents(), range) && ByBucket(items, maxBucketsPow2)
    {
      hide BucketIx, BucketApi.Valid, Lists, ByBucket;
      ghost var parts := Parts();
      ListsNone<T>(range);
      items := [];
      ByBucketNone<T>(maxBucketsPow2);
      var i := 0;
      while i < |buckets|
        invariant 0 <= i <= |buckets| && Parts() == parts
        invariant Lists(items, Merged(parts[..i]), range)
        invariant ByBucket(items, maxBucketsPow2)
        invariant forall j: nat :: j < |items| ==> BucketIx(items[j].pubkey, maxBucketsPow2) < i
        invariant forall j: nat :: j < |buckets| ==> buckets[j].Valid()
      {
        var more := buckets[i].ItemsInRange(range);
        assert buckets[i].contents == Parts()[i];
        MergedStep(parts, maxBucketsPow2, i);
        ListsConcat(items, more, Merged(parts[..i]), parts[i], range);
        OfBucket(more, parts, maxBucketsPow2, i, range);
        ByBucketNext(items, more, maxBucketsPow2, i);
        items := items + more;
        i := i + 1;
      }
      assert parts[..|parts|] == parts;
    }
  }
}
