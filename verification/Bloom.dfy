/** The Bloom filter over a bit vector, and the lock-free filter over atomic words. */
module Blooms {
  import opened Bits
  import opened BitVectors

  const U64_MAX: nat := 0xFFFF_FFFF_FFFF_FFFF

  function SaturatingAdd(x: nat, y: nat): (r: nat)
    ensures r <= U64_MAX && (r == x + y || r == U64_MAX < x + y)
  {
    if x + y > U64_MAX then U64_MAX else x + y
  }

  /** What an item hashes to under each of the filter's keys. */
  type Hash<!T> = (T, nat) -> nat

  // ---------------------------------------------------------------------------
  // Adding and finding, on bits

  /** The positions of an item in a filter with n bits, one per key. */
  function Positions<T>(hash: Hash<T>, keys: seq<nat>, n: nat, item: T): (r: seq<nat>)
    requires keys == [] || n > 0
    ensures |r| == |keys| && forall i :: 0 <= i < |r| ==> r[i] < n && r[i] == hash(item, keys[i]) % n
  {
    if keys == [] then []
    else Positions(hash, keys[..|keys| - 1], n, item) + [hash(item, keys[|keys| - 1]) % n]
  }

  ghost predicate Within(ps: seq<nat>, n: nat) {
    forall i :: 0 <= i < |ps| ==> ps[i] < n
  }

  /** The bits after some positions were set. */
  function SetAll(bits: seq<bool>, ps: seq<nat>): (r: seq<bool>)
    requires Within(ps, |bits|)
    ensures |r| == |bits| && forall q :: 0 <= q < |r| ==> (r[q] <==> bits[q] || q in ps)
    decreases |ps|
  {
    if |ps| == 0 then bits
    else
      var last := |ps| - 1;
      assert ps == ps[..last] + [ps[last]];
      SetAll(bits, ps[..last])[ps[last] := true]
  }

  ghost predicate Holds(bits: seq<bool>, ps: seq<nat>)
    requires Within(ps, |bits|)
  {
    forall i :: 0 <= i < |ps| ==> bits[ps[i]]
  }

  lemma SetAllHolds(bits: seq<bool>, ps: seq<nat>)
    requires Within(ps, |bits|)
    ensures Holds(SetAll(bits, ps), ps)
    ensures Holds(bits, ps) ==> SetAll(bits, ps) == bits
  {
  }

  lemma AddStart(bits: seq<bool>)
    ensures SetAll(bits, []) == bits && Holds(bits, [])
  {
  }

  /** One more position: what was set before this add or by it is found set. */
  lemma AddStep(bits: seq<bool>, ps: seq<nat>, i: nat)
    requires Within(ps, |bits|) && i < |ps|
    ensures SetAll(bits, ps[..i + 1]) == SetAll(bits, ps[..i])[ps[i] := true]
    ensures Holds(bits, ps[..i + 1]) <==> Holds(bits, ps[..i]) && SetAll(bits, ps[..i])[ps[i]]
  {
    hide Holds, SetAll;
    var was := ps[..i];
    assert ps[..i + 1] == was + [ps[i]];
    SetAllNext(bits, was, ps[i]);
    if Holds(bits, was) {
      SetAllHolds(bits, was);
    }
    HoldsNext(bits, was, ps[i]);
  }

  lemma SetAllNext(bits: seq<bool>, ps: seq<nat>, p: nat)
    requires Within(ps, |bits|) && p < |bits|
    ensures SetAll(bits, ps + [p]) == SetAll(bits, ps)[p := true]
  {
  }

  lemma HoldsNext(bits: seq<bool>, ps: seq<nat>, p: nat)
    requires Within(ps, |bits|) && p < |bits|
    ensures Holds(bits, ps + [p]) <==> Holds(bits, ps) && bits[p]
  {
    if Holds(bits, ps + [p]) {
      assert forall i :: 0 <= i < |ps| ==> (ps + [p])[i] == ps[i];
      assert (ps + [p])[|ps|] == p;
    }
  }

  // ---------------------------------------------------------------------------
  // The sequential filter

  class Bloom<!T(!new)> {
    const hash: Hash<T>
    const keys: seq<nat>
    var bits: seq<bool>
    var numBitsSet: nat

    /** The counter counts the set bits; there are less than 2^64 bits. */
    ghost predicate Valid()
      reads this
    {
      |bits| <= U64_MAX && numBitsSet == Count(bits)
    }

    constructor (hash: Hash<T>, numBits: nat, keys: seq<nat>)
      requires numBits <= U64_MAX
      ensures Valid() && this.hash == hash && this.keys == keys
      ensures |bits| == numBits && forall q :: 0 <= q < numBits ==> !bits[q]
    {
      this.hash, this.keys := hash, keys;
      bits := seq(numBits, _ => false);
      numBitsSet := 0;
      CountNone(numBits);
    }

    method Clear()
      requires Valid()
      modifies this
      ensures Valid() && |bits| == old(|bits|) && numBitsSet == 0
      ensures forall q :: 0 <= q < |bits| ==> !bits[q]
    {
      CountNone(|bits|);
      bits := seq(|bits|, _ => false);
      numBitsSet := 0;
    }

    /** The counter is incremented saturating, and never saturates. */
    method Add(item: T)
      requires Valid() && (keys == [] || bits != [])
      modifies this
      ensures Valid() && bits == SetAll(old(bits), Positions(hash, keys, old(|bits|), item))
    {
      hide Count;
      ghost var ps := Positions(hash, keys, |bits|, item);
      var i := 0;
      while i < |keys|
        invariant 0 <= i <= |keys| && Valid() && |bits| == old(|bits|)
        invariant bits == SetAll(old(bits), ps[..i])
      {
        var p := hash(item, keys[i]) % |bits|;
        assert ps[..i + 1][..i] == ps[..i] && p == ps[i];
        if !bits[p] {
          CountSet(bits, p);
          numBitsSet := SaturatingAdd(numBitsSet, 1);
          bits := bits[p := true];
        }
        i := i + 1;
      }
      assert ps[..i] == ps;
    }

    method Contains(item: T) returns (r: bool)
      requires keys == [] || bits != []
      ensures r <==> Holds(bits, Positions(hash, keys, |bits|, item))
    {
      ghost var ps := Positions(hash, keys, |bits|, item);
      var i := 0;
      while i < |keys|
        invariant 0 <= i <= |keys|
        invariant forall j :: 0 <= j < i ==> bits[ps[j]]
      {
        if !bits[hash(item, keys[i]) % |bits|] {
          return false;
        }
        i := i + 1;
      }
      return true;
    }

    /** Back from the atomic filter, truncated to its length, with the ones counted word by word. */
    constructor FromAtomic(atomic: AtomicBloom<T>)
      requires atomic.Valid()
      ensures Valid() && hash == atomic.hash && keys == atomic.keys && bits == atomic.View()
    {
      hash, keys := atomic.hash, atomic.keys;
      bits := Unpack(atomic.words[..], atomic.numBits);
      numBitsSet := CountOnes(atomic.words[..]);
      OnesAreCount(atomic.words[..], atomic.numBits);
    }
  }

  // ---------------------------------------------------------------------------
  // The filter over atomic words

  class AtomicBloom<!T(!new)> {
    const hash: Hash<T>
    const numBits: nat
    const keys: seq<nat>
    const words: array<Word>

    ghost predicate Valid()
      reads this, words
    {
      numBits <= U64_MAX && Clean(words[..], numBits)
    }

    ghost function View(): (r: seq<bool>)
      requires Valid()
      reads this, words
    {
      Unpack(words[..], numBits)
    }

    constructor FromBloom(bloom: Bloom<T>)
      requires bloom.Valid()
      ensures Valid() && fresh(words) && hash == bloom.hash && keys == bloom.keys
      ensures numBits == |bloom.bits| && View() == bloom.bits
    {
      hash, numBits, keys := bloom.hash, |bloom.bits|, bloom.keys;
      var packed := Pack(bloom.bits);
      words := new Word[|packed|](i requires 0 <= i < |packed| => packed[i]);
      UnpackPack(bloom.bits);
      new;
      assert words[..] == packed;
    }

    /** Run alone, it returns true exactly when the item was not contained. */
    method Add(item: T) returns (added: bool)
      requires Valid() && (keys == [] || numBits > 0)
      modifies words
      ensures Valid() && View() == SetAll(old(View()), Positions(hash, keys, numBits, item))
      ensures added <==> !Holds(old(View()), Positions(hash, keys, numBits, item))
    {
      hide Holds, SetAll, Meets, Mask, Or;
      ghost var ps := Positions(hash, keys, numBits, item);
      AddStart(View());
      added := false;
      var i := 0;
      while i < |keys|
        invariant 0 <= i <= |keys| && Valid()
        invariant View() == SetAll(old(View()), ps[..i])
        invariant added <==> !Holds(old(View()), ps[..i])
      {
        var p := hash(item, keys[i]) % numBits;
        ghost var before := words[..];
        FetchOrView(before, numBits, p);
        AddStep(old(View()), ps, i);
        var index, mask := p / 64, Mask(p % 64);
        var prev := words[index];
        words[index] := Or(prev, mask);
        assert words[..] == OrAt(before, p);
        added := added || !Meets(prev, mask);
        i := i + 1;
      }
      assert ps[..i] == ps;
    }

    predicate Contains(item: T): (r: bool)
      requires Valid() && (keys == [] || numBits > 0)
      reads this, words
      ensures r <==> Holds(View(), Positions(hash, keys, numBits, item))
    {
      forall i :: 0 <= i < |keys| ==>
        var p := hash(item, keys[i]) % numBits;
        Meets(words[p / 64], Mask(p % 64))
    }
  }

  /** One fetch-or sets one bit of the view and tells whether it was set. */
  lemma FetchOrView(words: seq<Word>, n: nat, p: nat)
    requires Clean(words, n) && p < n
    ensures Clean(OrAt(words, p), n) && Unpack(OrAt(words, p), n) == Unpack(words, n)[p := true]
    ensures Meets(words[p / 64], Mask(p % 64)) <==> Unpack(words, n)[p]
  {
    assert Unpack(words, n)[p] <==> Bit(words[p / 64], p % 64);
    hide BitAt, OrAt, Bit;
    assert |OrAt(words, p)| == |words| by { OrAtSize(words, p); }
    forall q | 0 <= q < 64 * |words| ensures BitAt(OrAt(words, p), q) <==> BitAt(words, q) || p == q {
      OrAtBit(words, p, q);
    }
  }

  lemma OrAtSize(words: seq<Word>, p: nat)
    requires p < 64 * |words|
    ensures |OrAt(words, p)| == |words|
  {
  }
}
