/** Vectors of bits, and their packing into words with zeros past the end. */
module BitVectors {
  import opened Bits

  predicate BitAt(words: seq<Word>, p: nat)
    requires p < 64 * |words|
  {
    Bit(words[p / 64], p % 64)
  }

  /** One atomic fetch-or: sets the bit at p. */
  function OrAt(words: seq<Word>, p: nat): (r: seq<Word>)
    requires p < 64 * |words|
  {
    words[p / 64 := Or(words[p / 64], Mask(p % 64))]
  }

  lemma OrAtBit(words: seq<Word>, p: nat, q: nat)
    requires p < 64 * |words| && q < 64 * |words|
    ensures BitAt(OrAt(words, p), q) <==> BitAt(words, q) || p == q
  {
    hide Bit, Or, Mask;
    if p / 64 == q / 64 {
      OrBit(words[p / 64], p % 64, q % 64);
    }
  }

  /** As many words as the bits need, with every bit past the end zero. */
  ghost predicate Clean(words: seq<Word>, n: nat) {
    && |words| == Blocks(n)
    && (forall p :: n <= p < 64 * |words| ==> !BitAt(words, p))
  }

  function Blocks(n: nat): (r: nat)
    ensures n <= 64 * r < n + 64
  {
    (n + 63) / 64
  }

  // ---------------------------------------------------------------------------
  // Packing and unpacking

  function PackWord(bits: seq<bool>, n: nat): (r: Word)
    requires n <= |bits| && n <= 64
  {
    if n == 0 then 0
    else if bits[n - 1] then Or(PackWord(bits, n - 1), Mask(n - 1))
    else PackWord(bits, n - 1)
  }

  lemma {:induction false} PackWordBit(bits: seq<bool>, n: nat, i: nat)
    requires n <= |bits| && n <= 64 && i < 64
    ensures Bit(PackWord(bits, n), i) <==> i < n && bits[i]
    decreases n
  {
    if n == 0 {
      NoBit(i);
    } else {
      hide Bit, Or, Mask;
      PackWordBit(bits, n - 1, i);
      if bits[n - 1] {
        OrBit(PackWord(bits, n - 1), n - 1, i);
      }
    }
  }

  lemma NoBit(i: nat)
    requires i < 64
    ensures !Bit(0, i)
  {
  }

  /** The blocks behind a bit vector. */
  function Pack(bits: seq<bool>): (r: seq<Word>)
    decreases |bits|
  {
    if |bits| == 0 then []
    else if |bits| <= 64 then [PackWord(bits, |bits|)]
    else [PackWord(bits, 64)] + Pack(bits[64..])
  }

  lemma {:induction false} PackBits(bits: seq<bool>)
    ensures |Pack(bits)| == Blocks(|bits|)
    ensures forall p :: 0 <= p < 64 * |Pack(bits)| ==> (BitAt(Pack(bits), p) <==> p < |bits| && bits[p])
    decreases |bits|
  {
    hide Bit, PackWord;
    var words := Pack(bits);
    if 0 < |bits| <= 64 {
      forall p | 0 <= p < 64 ensures BitAt(words, p) <==> p < |bits| && bits[p] {
        PackWordBit(bits, |bits|, p);
      }
    } else if |bits| > 64 {
      PackBits(bits[64..]);
      forall p | 0 <= p < 64 * |words| ensures BitAt(words, p) <==> p < |bits| && bits[p] {
        if p < 64 {
          PackWordBit(bits, 64, p);
        } else {
          assert BitAt(words, p) <==> BitAt(Pack(bits[64..]), p - 64);
        }
      }
    }
  }

  /** The first n bits. */
  function Unpack(words: seq<Word>, n: nat): (r: seq<bool>)
    requires n <= 64 * |words|
    ensures |r| == n && forall p :: 0 <= p < n ==> r[p] == BitAt(words, p)
  {
    seq(n, p requires 0 <= p < n => BitAt(words, p))
  }

  lemma UnpackPack(bits: seq<bool>)
    ensures Clean(Pack(bits), |bits|) && Unpack(Pack(bits), |bits|) == bits
  {
    hide BitAt, Pack;
    PackBits(bits);
  }

  lemma PackUnpack(words: seq<Word>, n: nat)
    requires Clean(words, n)
    ensures Pack(Unpack(words, n)) == words
  {
    hide Bit, Pack;
    var bits := Unpack(words, n);
    PackBits(bits);
    forall k | 0 <= k < |words| ensures Pack(bits)[k] == words[k] {
      forall i | 0 <= i < 64 ensures Bit(Pack(bits)[k], i) <==> Bit(words[k], i) {
        var p := 64 * k + i;
        Place(k, i);
        assert BitAt(Pack(bits), p) <==> BitAt(words, p);
      }
      SameBits(Pack(bits)[k], words[k]);
    }
  }

  // ---------------------------------------------------------------------------
  // Counting

  function Count(bits: seq<bool>): (r: nat)
    decreases |bits|
  {
    if |bits| == 0 then 0 else Count(bits[..|bits| - 1]) + if bits[|bits| - 1] then 1 else 0
  }

  /** The number of ones among the low n bits of a word. */
  function Ones(w: Word, n: nat): (r: nat)
    requires n <= 64
  {
    if n == 0 then 0 else Ones(w, n - 1) + if Bit(w, n - 1) then 1 else 0
  }

  function CountOnes(words: seq<Word>): (r: nat)
    decreases |words|
  {
    if |words| == 0 then 0 else CountOnes(words[..|words| - 1]) + Ones(words[|words| - 1], 64)
  }

  lemma {:induction false} CountUnpacked(words: seq<Word>, k: nat, i: nat)
    requires k < |words| && i <= 64
    ensures Count(Unpack(words, 64 * k + i)) == CountOnes(words[..k]) + Ones(words[k], i)
    decreases k, i
  {
    hide Bit;
    if i == 0 {
      if k > 0 {
        CountUnpacked(words, k - 1, 64);
        assert words[..k][..k - 1] == words[..k - 1];
      }
    } else {
      CountUnpacked(words, k, i - 1);
      CountNext(words, 64 * k + i);
      Place(k, i - 1);
    }
  }

  lemma Place(k: nat, i: nat)
    requires i < 64
    ensures (64 * k + i) / 64 == k && (64 * k + i) % 64 == i
  {
  }

  lemma CountNext(words: seq<Word>, n: nat)
    requires 0 < n <= 64 * |words|
    ensures Count(Unpack(words, n)) == Count(Unpack(words, n - 1)) + if BitAt(words, n - 1) then 1 else 0
  {
    hide BitAt;
    assert Unpack(words, n)[..n - 1] == Unpack(words, n - 1);
  }

  lemma {:induction false} CountTail(words: seq<Word>, n: nat, m: nat)
    requires n <= m <= 64 * |words| && forall p :: n <= p < m ==> !BitAt(words, p)
    ensures Count(Unpack(words, m)) == Count(Unpack(words, n))
    decreases m
  {
    hide BitAt;
    if n < m {
      CountTail(words, n, m - 1);
      CountNext(words, m);
    }
  }

  /** With zeros past the end the ones of the words are the bits that are set. */
  lemma OnesAreCount(words: seq<Word>, n: nat)
    requires Clean(words, n)
    ensures CountOnes(words) == Count(Unpack(words, n))
  {
    hide BitAt;
    if |words| > 0 {
      CountUnpacked(words, |words| - 1, 64);
      CountTail(words, n, 64 * |words|);
    }
  }

  lemma {:induction false} CountBound(bits: seq<bool>)
    ensures Count(bits) <= |bits|
    decreases |bits|
  {
    if |bits| > 0 {
      CountBound(bits[..|bits| - 1]);
    }
  }

  /** Setting a bit that is not set adds one, and leaves room below the length. */
  lemma {:induction false} CountSet(bits: seq<bool>, p: nat)
    requires p < |bits| && !bits[p]
    ensures Count(bits[p := true]) == Count(bits) + 1 && Count(bits) < |bits|
    decreases |bits|
  {
    var last := |bits| - 1;
    if p == last {
      assert bits[p := true][..last] == bits[..last];
      CountBound(bits[..last]);
    } else {
      assert bits[p := true][..last] == bits[..last][p := true];
      CountSet(bits[..last], p);
    }
  }

  lemma {:induction false} CountNone(n: nat)
    ensures Count(seq(n, _ => false)) == 0
  {
    if n > 0 {
      CountNone(n - 1);
      assert seq(n, _ => false)[..n - 1] == seq(n - 1, _ => false);
    }
  }
}
