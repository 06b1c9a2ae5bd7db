/**
  Keys as their 32 bytes: which bits of a key choose its bucket, and which keys a range selects.
 */
module KeyBytes {
  import opened Options
  import opened Arithmetic
  import opened Storage
  import opened IndexEntries
  import opened BucketState
  import opened Buckets
  import opened BucketMaps

  // ---------------------------------------------------------------------------
  // Bytes and numbers

  /** The n bytes of a number, most significant byte first. */
  function ToBytes(x: nat, n: nat): (bytes: seq<Byte>)
    ensures |bytes| == n
    decreases n
  {
    if n == 0 then [] else ToBytes(x / 256, n - 1) + [x % 256]
  }

  lemma {:induction false} ToBytesReadsBack(x: nat, n: nat)
    requires x < Pow2(8 * n)
    ensures BigEndian(ToBytes(x, n), n) == x
    decreases n
  {
    if n > 0 {
      Pow2Add(8 * (n - 1), 8);
      assert Pow2(8) == 256;
      hide Pow2;
      ToBytesReadsBack(x / 256, n - 1);
      SamePrefixOf(ToBytes(x / 256, n - 1), ToBytes(x, n), n - 1);
    }
  }

  lemma {:induction false} SamePrefixOf(a: seq<Byte>, b: seq<Byte>, n: nat)
    requires n <= |a| && n <= |b| && a[..n] == b[..n]
    ensures BigEndian(a, n) == BigEndian(b, n)
  {
    if n > 0 {
      assert a[..n - 1] == a[..n][..n - 1] && b[..n - 1] == b[..n][..n - 1];
      SamePrefixOf(a, b, n - 1);
      assert a[n - 1] == a[..n][n - 1] && b[n - 1] == b[..n][n - 1];
    }
  }

  /** Every pair of a 64-bit and a 192-bit number is the key of some bytes. */
  lemma BytesOf(high: U64, low: nat) returns (bytes: Bytes32)
    requires low < Pow2(192)
    ensures FromBytes(bytes) == Pubkey(high, low)
  {
    Pow2Of64();
    hide Pow2, ToBytes, BigEndian;
    var front, back := ToBytes(high, 8), ToBytes(low, 24);
    ToBytesReadsBack(high, 8);
    ToBytesReadsBack(low, 24);
    bytes := front + back;
    SamePrefixOf(front, bytes, 8);
    assert bytes[8..] == back;
  }

  // ---------------------------------------------------------------------------
  // The bits that choose a bucket

  /** Bit i of a byte string, the most significant bit of the first byte being bit 0. */
  function BitOf(bytes: seq<Byte>, i: nat): (b: nat)
    requires i < 8 * |bytes|
  {
    bytes[i / 8] / Pow2(7 - i % 8) % 2
  }

  /** The number that the first n bits of a byte string spell out. */
  function LeadingBits(bytes: seq<Byte>, n: nat): (r: nat)
    requires n <= 8 * |bytes|
  {
    if n == 0 then 0 else 2 * LeadingBits(bytes, n - 1) + BitOf(bytes, n - 1)
  }

  /** Within byte k, j more bits are the byte without its last 8 - j bits. */
  lemma {:induction false} BitsOfByte(bytes: seq<Byte>, k: nat, j: nat)
    requires k < |bytes| && j <= 8
    ensures LeadingBits(bytes, 8 * k + j) == LeadingBits(bytes, 8 * k) * Pow2(j) + bytes[k] / Pow2(8 - j)
    decreases j
  {
    hide Pow2, BitOf;
    if j == 0 {
      ByteEnds(bytes[k]);
    } else {
      BitsOfByte(bytes, k, j - 1);
      BitInByte(bytes, k, j - 1);
      Pow2Next(8 - j);
      Pow2Next(j - 1);
      NextBit(LeadingBits(bytes, 8 * k), Pow2(j - 1), bytes[k], Pow2(8 - j));
    }
  }

  lemma Pow2Next(n: nat)
    ensures Pow2(n + 1) == 2 * Pow2(n)
  {
  }

  lemma ByteEnds(b: Byte)
    ensures Pow2(8) == 256 && Pow2(0) == 1 && b / Pow2(8) == 0 && b / Pow2(0) == b
  {
    assert Pow2(4) == 16;
    Pow2Add(4, 4);
  }

  lemma BitInByte(bytes: seq<Byte>, k: nat, j: nat)
    requires k < |bytes| && j < 8
    ensures BitOf(bytes, 8 * k + j) == bytes[k] / Pow2(7 - j) % 2
  {
    assert (8 * k + j) / 8 == k && (8 * k + j) % 8 == j;
  }

  lemma NextBit(first: nat, p: nat, b: nat, g: nat)
    requires g >= 1
    ensures 2 * (first * p + b / (2 * g)) + b / g % 2 == first * (2 * p) + b / g
  {
    DivideTwice(b, g);
    DoubleFactor(first, p);
  }

  lemma DivideTwice(x: nat, g: nat)
    requires g >= 1
    ensures x / (2 * g) == x / g / 2
  {
    var q := x / g;
    assert x == g * q + x % g;
    assert g * q == q * g && (q + 1) * g == q * g + g;
    HalfQuotient(x, q, g);
    QuotientIs(x, 2 * g, q / 2);
  }

  lemma QuotientIs(x: nat, g: nat, q: nat)
    requires g >= 1 && q * g <= x < (q + 1) * g
    ensures x / g == q
  {
    var p := x / g;
    assert x == g * p + x % g;
    assert g * p == p * g && (p + 1) * g == p * g + g;
    SameQuotient(p, q, g, x);
  }

  lemma WholeByte(bytes: seq<Byte>, k: nat)
    requires k < |bytes|
    ensures LeadingBits(bytes, 8 * k + 8) == 256 * LeadingBits(bytes, 8 * k) + bytes[k]
  {
    hide *;
    BitsOfByte(bytes, k, 8);
    ByteEnds(bytes[k]);
  }

  lemma {:induction false} LeadingBytes(bytes: seq<Byte>, k: nat)
    requires k <= |bytes|
    ensures LeadingBits(bytes, 8 * k) == BigEndian(bytes, k)
  {
    if k > 0 {
      hide LeadingBits;
      LeadingBytes(bytes, k - 1);
      WholeByte(bytes, k - 1);
    }
  }

  lemma {:induction false} ShiftDropsBits(bytes: seq<Byte>, k: nat, n: nat)
    requires k <= |bytes| && n <= 8 * k
    ensures ShiftRight(BigEndian(bytes, k), n) == LeadingBits(bytes, 8 * k - n)
    decreases n
  {
    hide BitOf, BigEndian;
    if n == 0 {
      LeadingBytes(bytes, k);
    } else {
      ShiftDropsBits(bytes, k, n - 1);
      BitIsBit(bytes, 8 * k - n);
    }
  }

  lemma BitIsBit(bytes: seq<Byte>, i: nat)
    requires i < 8 * |bytes|
    ensures 0 <= BitOf(bytes, i) < 2
  {
    hide Pow2;
  }

  /** The bucket of a key is the number that its leading bits spell out. */
  lemma RoutedByLeadingBits(bytes: Bytes32, pow2: nat)
    requires pow2 <= 64
    ensures BucketIx(FromBytes(bytes), pow2) == LeadingBits(bytes, pow2)
  {
    hide BigEndian, ShiftRight;
    if pow2 > 0 {
      ShiftDropsBits(bytes, 8, 64 - pow2);
    }
  }

  /** The keys of bucket ix are those whose first eight bytes, as a number, lie in the ix-th of 2^pow2 equal parts. */
  lemma RoutedByRange(key: Pubkey, pow2: nat)
    requires pow2 <= 64
    ensures var g, ix := Pow2(64 - pow2), BucketIx(key, pow2); ix * g <= key.high < (ix + 1) * g
  {
    Pow2Of64();
    hide Pow2, ShiftRight;
    if pow2 > 0 {
      ShiftRightBounds(key.high, 64 - pow2);
    }
  }

  lemma FirstOfPart(key: Pubkey, pow2: nat, ix: nat)
    requires pow2 <= 64 && key.high == ix * Pow2(64 - pow2)
    ensures BucketIx(key, pow2) == ix
  {
    hide *;
    RoutedByRange(key, pow2);
    ExactQuotient(BucketIx(key, pow2), ix, Pow2(64 - pow2));
  }

  lemma ExactQuotient(a: nat, b: nat, g: nat)
    requires g >= 1 && a * g <= b * g < (a + 1) * g
    ensures a == b
  {
    assert (b + 1) * g == b * g + g;
    SameQuotient(a, b, g, b * g);
  }

  lemma PartsFit(pow2: nat, ix: nat)
    requires pow2 <= 64 && ix < Pow2(pow2)
    ensures ix * Pow2(64 - pow2) < U64_RANGE
  {
    Pow2Of64();
    Pow2Add(pow2, 64 - pow2);
    hide Pow2;
    MulBelow(ix, Pow2(pow2), Pow2(64 - pow2));
  }

  /** Every bucket of a map is reached by some key. */
  lemma EveryBucketReached(pow2: nat, ix: nat) returns (bytes: Bytes32)
    requires pow2 <= 64 && ix < Pow2(pow2)
    ensures BucketIx(FromBytes(bytes), pow2) == ix
  {
    hide FromBytes, BucketIx, Pow2;
    PartsFit(pow2, ix);
    var high: U64 := ix * Pow2(64 - pow2);
    bytes := BytesOf(high, 0);
    FirstOfPart(Pubkey(high, 0), pow2, ix);
  }

  lemma MulBelow(a: nat, b: nat, g: nat)
    requires a < b && g >= 1
    ensures a * g < b * g
  {
  }

  lemma SameQuotient(a: nat, b: nat, g: nat, x: nat)
    requires g >= 1 && a * g <= x < (a + 1) * g && b * g <= x < (b + 1) * g
    ensures a == b
  {
    if a < b {
      MulNoLess(a + 1, b, g);
    } else if b < a {
      MulNoLess(b + 1, a, g);
    }
  }

  // ---------------------------------------------------------------------------
  // Where a key is looked for

  /** Two keys share a uid exactly if their hashes are the same, 0 and 1 taken for one. */
  lemma SameUid(env: Env, a: Pubkey, b: Pubkey)
    ensures KeyUid(env, a) == KeyUid(env, b)
       <==> env.keyHash(a) == env.keyHash(b) || (env.keyHash(a) <= 1 && env.keyHash(b) <= 1)
    ensures env.keyHash(a) >= 1 ==> KeyUid(env, a) == env.keyHash(a)
  {
  }

  /** Probing starts at the hash of the uid, less as many times the capacity as it takes. */
  lemma StartsAtHash(env: Env, pow2: nat, key: Pubkey, random: nat) returns (times: nat)
    ensures env.indexHash(KeyUid(env, key), random) == times * Pow2(pow2) + IndexStart(env, pow2, key, random)
  {
    hide KeyUid, Pow2;
    times := env.indexHash(KeyUid(env, key), random) / Pow2(pow2);
    Remainder(env.indexHash(KeyUid(env, key), random), Pow2(pow2));
  }

  lemma Remainder(x: nat, g: nat)
    requires g >= 1
    ensures x == x / g * g + x % g
  {
  }

  /** In a table of twice the capacity a probe starts at the same cell, or one capacity further. */
  lemma StartDoubles(env: Env, pow2: nat, key: Pubkey, random: nat)
    ensures var start, next := IndexStart(env, pow2, key, random), IndexStart(env, pow2 + 1, key, random);
            next == start || next == start + Pow2(pow2)
  {
    var a := StartsAtHash(env, pow2, key, random);
    var b := StartsAtHash(env, pow2 + 1, key, random);
    var cap, start, next := Pow2(pow2), IndexStart(env, pow2, key, random), IndexStart(env, pow2 + 1, key, random);
    hide IndexStart;
    HalfOfCapacity(a, b, cap, start, next);
  }

  lemma HalfOfCapacity(a: nat, b: nat, cap: nat, start: nat, next: nat)
    requires cap >= 1 && start < cap && next < 2 * cap && a * cap + start == b * (2 * cap) + next
    ensures next == start || next == start + cap
  {
    assert b * (2 * cap) == (2 * b) * cap;
    if next < cap {
      assert (2 * b + 1) * cap == (2 * b) * cap + cap && (a + 1) * cap == a * cap + cap;
      SameQuotient(a, 2 * b, cap, a * cap + start);
    } else {
      assert (2 * b + 1) * cap == (2 * b) * cap + cap && (2 * b + 2) * cap == (2 * b) * cap + 2 * cap;
      assert (a + 1) * cap == a * cap + cap;
      SameQuotient(a, 2 * b + 1, cap, a * cap + start);
    }
  }

  // ---------------------------------------------------------------------------
  // Ranges

  function Range(start: Bound, end: Bound): Option<KeyRange> {
    Some(KeyRange(start, end))
  }

  /** From lo up to and including hi, in byte order. */
  lemma SelectsInclusive(lo: Bytes32, hi: Bytes32, k: Bytes32)
    ensures Selects(Range(Included(FromBytes(lo)), Included(FromBytes(hi))), FromBytes(k))
       <==> BytesLeq(lo, k) && BytesLeq(k, hi)
  {
    hide FromBytes, BytesLeq;
    BytesOrder(lo, k);
    BytesOrder(k, hi);
  }

  /** Both ends of an inclusive range are in it. */
  lemma SelectsEnds(lo: Bytes32, hi: Bytes32)
    requires BytesLeq(lo, hi)
    ensures Selects(Range(Included(FromBytes(lo)), Included(FromBytes(hi))), FromBytes(lo))
    ensures Selects(Range(Included(FromBytes(lo)), Included(FromBytes(hi))), FromBytes(hi))
  {
    BytesLeqTotal(lo, lo);
    BytesLeqTotal(hi, hi);
    SelectsInclusive(lo, hi, lo);
    SelectsInclusive(lo, hi, hi);
  }

  /** A range is what its two sides have in common. */
  lemma SelectsBothSides(start: Bound, end: Bound, k: Pubkey)
    ensures Selects(Range(start, end), k) <==> Selects(Range(start, Unbounded), k) && Selects(Range(Unbounded, end), k)
  {
  }

  /** An unbounded side leaves no key out, and neither does no range at all. */
  lemma SelectsUnbounded(lo: Bytes32, hi: Bytes32, k: Bytes32)
    ensures Selects(None, FromBytes(k)) && Selects(Range(Unbounded, Unbounded), FromBytes(k))
    ensures Selects(Range(Included(FromBytes(lo)), Unbounded), FromBytes(k)) <==> BytesLeq(lo, k)
    ensures Selects(Range(Unbounded, Included(FromBytes(hi))), FromBytes(k)) <==> BytesLeq(k, hi)
  {
    hide FromBytes, BytesLeq;
    BytesOrder(lo, k);
    BytesOrder(k, hi);
  }

  /** An excluded bound leaves out that one key of the keys that an included one selects. */
  lemma SelectsExcluded(b: Bytes32, other: Bound, k: Bytes32)
    ensures Selects(Range(Excluded(FromBytes(b)), other), FromBytes(k))
       <==> Selects(Range(Included(FromBytes(b)), other), FromBytes(k)) && k != b
    ensures Selects(Range(other, Excluded(FromBytes(b))), FromBytes(k))
       <==> Selects(Range(other, Included(FromBytes(b))), FromBytes(k)) && k != b
  {
    hide FromBytes, BytesLeq;
    BytesOrder(b, k);
  }

  /** A key between the ends splits an inclusive range into a part below it and a part from it on. */
  lemma SelectsSplit(lo: Bytes32, mid: Bytes32, hi: Bytes32, k: Bytes32)
    requires BytesLeq(lo, mid) && BytesLeq(mid, hi)
    ensures var below, above := Range(Included(FromBytes(lo)), Excluded(FromBytes(mid))),
                                Range(Included(FromBytes(mid)), Included(FromBytes(hi)));
            && !(Selects(below, FromBytes(k)) && Selects(above, FromBytes(k)))
            && (Selects(below, FromBytes(k)) || Selects(above, FromBytes(k))
                <==> Selects(Range(Included(FromBytes(lo)), Included(FromBytes(hi))), FromBytes(k)))
  {
    hide FromBytes, BytesLeq;
    BytesOrder(lo, mid);
    BytesOrder(mid, hi);
    BytesOrder(lo, k);
    BytesOrder(mid, k);
    BytesOrder(k, mid);
    BytesOrder(k, hi);
  }

  /** A listing of an inclusive range has exactly the stored keys from lo to hi, in byte order, each once. */
  lemma ListsInclusive<T>(items: seq<BucketItem<T>>, m: map<Pubkey, Value<T>>, lo: Bytes32, hi: Bytes32, k: Bytes32)
    requires Lists(items, m, Range(Included(FromBytes(lo)), Included(FromBytes(hi))))
    ensures (exists i: nat :: i < |items| && items[i].pubkey == FromBytes(k))
       <==> FromBytes(k) in m && BytesLeq(lo, k) && BytesLeq(k, hi)
    ensures forall i: nat, j: nat :: i < j < |items| ==> items[i].pubkey != items[j].pubkey
    ensures forall i: nat :: i < |items| && items[i].pubkey == FromBytes(k) ==>
              FromBytes(k) in m && m[FromBytes(k)] == Value(items[i].slotList, items[i].refCount)
  {
    hide FromBytes, BytesLeq, Selects;
    SelectsInclusive(lo, hi, k);
  }
}
