/** Funding benchmark accounts along a tree: every funded key funds four more, level by level. */
module Funding {
  import opened Options

  const MAX_SPENDS_PER_TX: nat := 4

  datatype Key = Key(id: nat)

  /** Balances; a key that is not listed has nothing. */
  type Ledger = map<Key, int>

  function Balance(l: Ledger, k: Key): (b: int) {
    if k in l then l[k] else 0
  }

  // ---------------------------------------------------------------------------
  // The size of the tree

  /** The number of funding transactions in a tree with n levels of funded keys: 1 + 4 + ... */
  function Payers(n: nat): (r: nat) {
    if n == 0 then 0 else 1 + 4 * Payers(n - 1)
  }

  /** The number of keys in a tree with n levels: 4 + 16 + ... */
  function TreeSize(n: nat): (r: nat) {
    4 * Payers(n)
  }

  function Pow4(n: nat): (r: nat) {
    if n == 0 then 1 else 4 * Pow4(n - 1)
  }

  lemma {:induction false} PayersNext(n: nat)
    ensures Payers(n + 1) == Payers(n) + Pow4(n)
  {
    if n > 0 {
      PayersNext(n - 1);
    }
  }

  lemma {:induction false} Pow4Positive(n: nat)
    ensures Pow4(n) >= 1
  {
    if n > 0 {
      Pow4Positive(n - 1);
    }
  }

  /**
    How many keys to generate for a requested count, and how many of the payments need a fee: the
    smallest full tree with at least `count` keys, and its number of payers.
   */
  method GenerateKeypairs(count: nat) returns (totalKeys: nat, extra: nat, ghost levels: nat)
    ensures totalKeys == TreeSize(levels) && extra == Payers(levels)
    ensures totalKeys >= count && (levels > 0 ==> TreeSize(levels - 1) < count)
  {
    totalKeys, extra, levels := 0, 0, 0;
    var delta := 1;
    while totalKeys < count
      invariant delta == Pow4(levels) && extra == Payers(levels) && totalKeys == TreeSize(levels)
      invariant levels > 0 ==> TreeSize(levels - 1) < count
      decreases count - totalKeys
    {
      PayersNext(levels);
      Pow4Positive(levels);
      extra := extra + delta;
      delta := delta * MAX_SPENDS_PER_TX;
      totalKeys := totalKeys + delta;
      levels := levels + 1;
    }
  }

  // ---------------------------------------------------------------------------
  // Amounts

  /** What a key needs that funds a subtree with n levels below it and keeps its own share. */
  function Share(n: nat, perAccount: nat, fee: nat): (r: nat)
    decreases n
  {
    if n == 0 then perAccount else perAccount + fee + 4 * Share(n - 1, perAccount, fee)
  }

  lemma MulFour(x: nat, y: nat)
    ensures x * (1 + 4 * y) == x + 4 * (x * y)
  {
  }

  /** The total to start with is the root's share: the division in every round is exact. */
  lemma {:induction false} ShareIsTotal(n: nat, perAccount: nat, fee: nat)
    ensures Share(n, perAccount, fee) == perAccount * (TreeSize(n) + 1) + fee * Payers(n)
    decreases n
  {
    if n > 0 {
      ShareIsTotal(n - 1, perAccount, fee);
      var p := Payers(n - 1);
      MulFour(perAccount, 4 * p + 1);
      MulFour(fee, p);
    }
  }

  // ---------------------------------------------------------------------------
  // Transactions

  /** `from` pays a fee and `amount` to each of the keys. */
  function Pay(l: Ledger, from: Key, to: seq<Key>, amount: int, fee: int): (r: Ledger) {
    Deposit(l[from := Balance(l, from) - |to| * amount - fee], to, amount)
  }

  function Deposit(l: Ledger, to: seq<Key>, amount: int): (r: Ledger)
    decreases |to|
  {
    if to == [] then l
    else Deposit(l[to[0] := Balance(l, to[0]) + amount], to[1..], amount)
  }

  ghost predicate Distinct(s: seq<Key>) {
    forall i: nat, j: nat :: i < j < |s| ==> s[i] != s[j]
  }

  lemma {:induction false} DepositBalance(l: Ledger, to: seq<Key>, amount: int, k: Key)
    requires Distinct(to)
    ensures Balance(Deposit(l, to, amount), k) == Balance(l, k) + if k in to then amount else 0
    decreases |to|
  {
    if to != [] {
      DepositBalance(l[to[0] := Balance(l, to[0]) + amount], to[1..], amount, k);
      assert to == [to[0]] + to[1..];
    }
  }

  lemma PayBalance(l: Ledger, from: Key, to: seq<Key>, amount: int, fee: int, k: Key)
    requires Distinct(to) && from !in to
    ensures Balance(Pay(l, from, to, amount, fee), k)
         == Balance(l, k) + (if k in to then amount else 0) - if k == from then |to| * amount + fee else 0
  {
    DepositBalance(l[from := Balance(l, from) - |to| * amount - fee], to, amount, k);
  }

  // ---------------------------------------------------------------------------
  // The rounds

  datatype Round = Round(ledger: Ledger, funded: seq<Key>, left: seq<Key>)

  /**
    One round: every funded key pays the last four of the keys that are left. A round fails when a
    funded key finds fewer than four keys left, or cannot pay.
   */
  method FundRound(ledger: Ledger, funded: seq<Key>, left: seq<Key>, amount: int, fee: int)
    returns (r: Option<Round>)
    requires Distinct(funded + left)
    ensures r.Some? <==> 4 * |funded| <= |left| && CanPay(ledger, funded, 4 * amount + fee)
    ensures r.Some? ==> Paid(ledger, funded, left, amount, fee, r.value)
  {
    hide Distinct, Drained, Settled;
    var l, newFunded, rest := ledger, [], left;
    var i := 0;
    StartPaid(ledger, left, amount, fee);
    while i < |funded|
      invariant 0 <= i <= |funded| && |rest| == |left| - 4 * i
      invariant Paid(ledger, funded[..i], left, amount, fee, Round(l, newFunded, rest))
      invariant CanPay(ledger, funded[..i], 4 * amount + fee)
    {
      if |rest| < MAX_SPENDS_PER_TX {
        return None;
      }
      PayerUntouched(ledger, funded, i, left, amount, fee, Round(l, newFunded, rest));
      if Balance(l, funded[i]) < 4 * amount + fee {
        return None;
      }
      var start := |rest| - MAX_SPENDS_PER_TX;
      PaidStep(ledger, funded, i, left, amount, fee, Round(l, newFunded, rest));
      l := Pay(l, funded[i], rest[start..], amount, fee);
      newFunded := newFunded + rest[start..];
      rest := rest[..start];
      i := i + 1;
    }
    assert funded[..i] == funded;
    return Some(Round(l, newFunded, rest));
  }

  lemma StartPaid(l: Ledger, left: seq<Key>, amount: int, fee: int)
    ensures Paid(l, [], left, amount, fee, Round(l, [], left))
  {
  }

  ghost predicate CanPay(l: Ledger, payers: seq<Key>, cost: int) {
    forall k :: k in payers ==> Balance(l, k) >= cost
  }

  /** The keys of a round: what is left is a prefix, and the newly funded keys are the others. */
  ghost predicate Drained(left: seq<Key>, newFunded: seq<Key>, rest: seq<Key>) {
    && rest <= left
    && |newFunded| == |left| - |rest|
    && Distinct(newFunded)
    && (forall k :: k in newFunded <==> k in left[|rest|..])
  }

  /** The ledger of a round: every payer lost four amounts and a fee, every new key gained one. */
  ghost predicate Settled(l: Ledger, payers: seq<Key>, payees: seq<Key>, amount: int, fee: int, r: Ledger) {
    forall k :: Balance(r, k) == Balance(l, k) + (if k in payees then amount else 0)
                                 - (if k in payers then 4 * amount + fee else 0)
  }

  ghost predicate Paid(l: Ledger, payers: seq<Key>, left: seq<Key>, amount: int, fee: int, r: Round) {
    && Drained(left, r.funded, r.left)
    && Settled(l, payers, r.funded, amount, fee, r.ledger)
    && |r.funded| == 4 * |payers| <= |left| && r.funded == FromEnd(left, |payers|)
  }

  /** n groups of four keys, taken one after the other from the end. */
  ghost function FromEnd(left: seq<Key>, n: nat): (r: seq<Key>)
    requires 4 * n <= |left|
  {
    if n == 0 then [] else FromEnd(left, n - 1) + left[|left| - 4 * n..|left| - 4 * (n - 1)]
  }

  lemma DrainStep(left: seq<Key>, newFunded: seq<Key>, rest: seq<Key>)
    requires Distinct(left) && Drained(left, newFunded, rest) && |rest| >= 4
    ensures var start := |rest| - 4;
            Distinct(rest[start..]) && Drained(left, newFunded + rest[start..], rest[..start])
  {
    var start := |rest| - 4;
    var group := rest[start..];
    assert left[start..] == group + left[|rest|..];
    forall i: nat, j: nat | i < |newFunded| && j < 4 ensures newFunded[i] != group[j] {
      assert newFunded[i] in left[|rest|..];
      assert group[j] == left[start + j];
    }
  }

  lemma PaidStep(l: Ledger, payers: seq<Key>, i: nat, left: seq<Key>, amount: int, fee: int, r: Round)
    requires i < |payers| && Distinct(payers + left)
    requires Paid(l, payers[..i], left, amount, fee, r) && |r.left| >= 4
    ensures var start := |r.left| - 4;
            Paid(l, payers[..i + 1], left, amount, fee,
                 Round(Pay(r.ledger, payers[i], r.left[start..], amount, fee), r.funded + r.left[start..], r.left[..start]))
  {
    var start := |r.left| - 4;
    var group := r.left[start..];
    DistinctParts(payers, left);
    DrainStep(left, r.funded, r.left);
    assert forall k :: k in group ==> k in left;
    PayeesApart(payers, left, payers[i]);
    PaySettles(l, payers, i, r.funded, group, amount, fee, r.ledger);
    assert group == left[|left| - 4 * (i + 1)..|left| - 4 * i];
  }

  /** Until its turn comes a payer neither pays nor is paid. */
  lemma PayerUntouched(l: Ledger, payers: seq<Key>, i: nat, left: seq<Key>, amount: int, fee: int, r: Round)
    requires i < |payers| && Distinct(payers + left) && Paid(l, payers[..i], left, amount, fee, r)
    ensures Balance(r.ledger, payers[i]) == Balance(l, payers[i])
  {
    DistinctParts(payers, left);
    PayeesApart(payers, left, payers[i]);
    assert forall k :: k in left[|r.left|..] ==> k in left;
    assert payers[i] !in payers[..i];
  }

  lemma DistinctParts(s: seq<Key>, t: seq<Key>)
    requires Distinct(s + t)
    ensures Distinct(s) && Distinct(t)
  {
    forall i: nat, j: nat | i < j < |s| ensures s[i] != s[j] {
      assert (s + t)[i] != (s + t)[j];
    }
    forall i: nat, j: nat | i < j < |t| ensures t[i] != t[j] {
      assert (s + t)[|s| + i] != (s + t)[|s| + j];
    }
  }

  lemma PayeesApart(s: seq<Key>, t: seq<Key>, k: Key)
    requires Distinct(s + t) && k in s
    ensures k !in t
  {
    var i: nat :| i < |s| && s[i] == k;
    forall j: nat | j < |t| ensures t[j] != k {
      assert (s + t)[i] != (s + t)[|s| + j];
    }
  }

  lemma PaySettles(l: Ledger, payers: seq<Key>, i: nat, newFunded: seq<Key>, group: seq<Key>,
                   amount: int, fee: int, now: Ledger)
    requires i < |payers| && Distinct(payers) && Settled(l, payers[..i], newFunded, amount, fee, now)
    requires |group| == 4 && Distinct(group) && payers[i] !in group && Distinct(newFunded + group)
    ensures Settled(l, payers[..i + 1], newFunded + group, amount, fee, Pay(now, payers[i], group, amount, fee))
  {
    var done := Pay(now, payers[i], group, amount, fee);
    forall k: Key
      ensures Balance(done, k) == Balance(l, k) + (if k in newFunded + group then amount else 0)
                                  - (if k in payers[..i + 1] then 4 * amount + fee else 0)
    {
      PayBalance(now, payers[i], group, amount, fee, k);
      assert payers[..i + 1] == payers[..i] + [payers[i]];
      assert payers[i] !in payers[..i];
      if k in group {
        NotInBoth(newFunded, group, k);
      }
    }
  }

  lemma NotInBoth(s: seq<Key>, t: seq<Key>, k: Key)
    requires Distinct(s + t) && k in t
    ensures k !in s
  {
    if k in s {
      PayeesApart(s, t, k);
    }
  }

  // ---------------------------------------------------------------------------
  // All rounds

  /** The balances after funding: every destination gained its share, the source gave the total and kept its own. */
  ghost predicate Funded(l: Ledger, source: Key, dests: seq<Key>, total: int, perAccount: int, r: Ledger) {
    forall k :: Balance(r, k) == Balance(l, k) + (if k in dests then perAccount else 0)
                                 + (if k == source then perAccount - total else 0)
  }

  ghost predicate IsFullTree(n: nat) {
    exists levels :: n == TreeSize(levels)
  }

  lemma TreeHasLevels(levels: nat)
    ensures IsFullTree(TreeSize(levels))
  {
  }

  /** What the caller provides: a full tree of keys, its exact total, and a source that holds it. */
  ghost predicate Provided(l: Ledger, source: Key, dests: seq<Key>, total: int, fee: nat, perAccount: nat, levels: nat) {
    && |dests| == TreeSize(levels)
    && total == perAccount * (|dests| + 1) + fee * Payers(levels)
    && Balance(l, source) >= total
    && CanPay(l, dests, 0)
  }

  /** The level of a key, counted from the end of the list: four keys are on level 1, sixteen on level 2, and so on. */
  ghost function LevelAt(q: nat): (r: nat)
    ensures r >= 1
  {
    if q < 4 then 1 else 1 + LevelAt((q - 4) / 4)
  }

  lemma {:induction false} LevelAtIs(q: nat, i: nat)
    ensures LevelAt(q) <= i <==> q < TreeSize(i)
    decreases q
  {
    if q >= 4 && i > 0 {
      LevelAtIs((q - 4) / 4, i - 1);
    }
  }

  /** What a whole tree is worth in which each key of level i keeps kept[i], the source kept[0], and payers pay a fee. */
  ghost function Worth(kept: seq<int>, fee: int): (r: int)
    requires kept != []
    decreases |kept|
  {
    if |kept| == 1 then kept[0] else kept[0] + fee + 4 * Worth(kept[1..], fee)
  }

  lemma {:induction false} WorthSplit(kept: seq<int>, rest: int, amount: int, fee: int)
    ensures Worth(kept + [rest, amount], fee) == Worth(kept + [rest + fee + 4 * amount], fee)
    decreases |kept|
  {
    if kept == [] {
      assert ([] + [rest, amount])[1..] == [amount];
    } else {
      WorthSplit(kept[1..], rest, amount, fee);
      assert (kept + [rest, amount])[1..] == kept[1..] + [rest, amount];
      assert (kept + [rest + fee + 4 * amount])[1..] == kept[1..] + [rest + fee + 4 * amount];
    }
  }

  ghost function Gain(kept: seq<int>, level: nat): (r: int) {
    if level < |kept| then kept[level] else 0
  }

  ghost predicate KeyGained(l: Ledger, dests: seq<Key>, kept: seq<int>, now: Ledger, p: nat)
    requires p < |dests|
  {
    Balance(now, dests[p]) == Balance(l, dests[p]) + Gain(kept, LevelAt(|dests| - 1 - p))
  }

  /** Every key of a funded level gained what its level keeps, the source gave the total, nobody else is touched. */
  ghost predicate LevelsHold(l: Ledger, source: Key, dests: seq<Key>, total: int, kept: seq<int>, now: Ledger)
    requires kept != []
  {
    && Balance(now, source) == Balance(l, source) - total + kept[0]
    && (forall p: nat :: p < |dests| ==> KeyGained(l, dests, kept, now, p))
    && (forall k :: k != source && k !in dests ==> Balance(now, k) == Balance(l, k))
  }

  /** The payers of a round are the keys of one level, at first the source. */
  ghost predicate OnLevel(source: Key, dests: seq<Key>, funded: seq<Key>, level: nat) {
    && (source in funded <==> level == 0)
    && (forall p: nat :: p < |dests| ==> (dests[p] in funded <==> LevelAt(|dests| - 1 - p) == level))
    && (forall k :: k in funded ==> k == source || k in dests)
  }

  lemma StartLevels(l: Ledger, source: Key, dests: seq<Key>, total: int)
    requires source !in dests
    ensures LevelsHold(l, source, dests, total, [total], l) && OnLevel(source, dests, [source], 0)
  {
    forall p: nat | p < |dests|
      ensures KeyGained(l, dests, [total], l, p)
    {
      assert LevelAt(|dests| - 1 - p) >= 1;
    }
  }

  /** The newly funded keys and the keys that are left share nothing. */
  lemma DrainedApart(left: seq<Key>, newFunded: seq<Key>, rest: seq<Key>)
    requires Distinct(left) && Drained(left, newFunded, rest)
    ensures Distinct(newFunded + rest)
  {
    forall i: nat, j: nat | i < |newFunded| && j < |rest| ensures newFunded[i] != rest[j] {
      assert newFunded[i] in left[|rest|..];
      assert rest[j] == left[j];
    }
  }

  lemma RoundKeys(now: Ledger, funded: seq<Key>, left: seq<Key>, dests: seq<Key>, amount: int, fee: int, next: Round)
    requires Paid(now, funded, left, amount, fee, next) && Distinct(left) && left <= dests
    ensures next.left <= dests && |next.left| == |left| - 4 * |funded| && |next.funded| == 4 * |funded|
    ensures Distinct(next.funded + next.left)
  {
    DrainedApart(left, next.funded, next.left);
  }

  /** The keys that a round funds are those of the next level. */
  lemma NextOnLevel(source: Key, dests: seq<Key>, left: seq<Key>, newFunded: seq<Key>, rest: seq<Key>, level: nat)
    requires Distinct(dests) && source !in dests && left <= dests && Drained(left, newFunded, rest)
    requires |dests| - |left| == TreeSize(level) && |dests| - |rest| == TreeSize(level + 1)
    ensures OnLevel(source, dests, newFunded, level + 1)
  {
    hide TreeSize, Distinct;
    forall p: nat | p < |dests|
      ensures dests[p] in newFunded <==> LevelAt(|dests| - 1 - p) == level + 1
    {
      LevelAtIs(|dests| - 1 - p, level);
      LevelAtIs(|dests| - 1 - p, level + 1);
      InPart(dests, left, |rest|, p);
    }
    assert forall k :: k in left[|rest|..] ==> k in left;
  }

  lemma InPart(dests: seq<Key>, left: seq<Key>, from: nat, p: nat)
    requires Distinct(dests) && left <= dests && from <= |left| && p < |dests|
    ensures dests[p] in left[from..] <==> from <= p < |left|
  {
    if from <= p < |left| {
      assert left[from..][p - from] == dests[p];
    }
    if dests[p] in left[from..] {
      var q: nat :| q < |left| - from && left[from..][q] == dests[p];
      assert dests[from + q] == dests[p];
    }
  }

  /** One round: a level keeps what it does not pass on, and the next one holds what it was paid. */
  lemma LevelsStep(l: Ledger, source: Key, dests: seq<Key>, total: int, kept: seq<int>, funds: int, now: Ledger,
                   funded: seq<Key>, amount: int, fee: int, newFunded: seq<Key>, next: Ledger)
    requires LevelsHold(l, source, dests, total, kept + [funds], now) && source !in dests
    requires OnLevel(source, dests, funded, |kept|) && OnLevel(source, dests, newFunded, |kept| + 1)
    requires Settled(now, funded, newFunded, amount, fee, next)
    ensures LevelsHold(l, source, dests, total, kept + [funds - fee - 4 * amount, amount], next)
  {
    hide LevelAt, Gain;
    var before, after := kept + [funds], kept + [funds - fee - 4 * amount, amount];
    forall p: nat | p < |dests|
      ensures KeyGained(l, dests, after, next, p)
    {
      assert dests[p] in dests && KeyGained(l, dests, before, now, p);
      GainStep(kept, funds, funds - fee - 4 * amount, amount, LevelAt(|dests| - 1 - p));
    }
    SourceStep(kept, funds, funds - fee - 4 * amount, amount);
  }

  lemma GainStep(kept: seq<int>, funds: int, rest: int, amount: int, level: nat)
    ensures Gain(kept + [rest, amount], level)
         == Gain(kept + [funds], level) + (if level == |kept| then rest - funds else 0) + if level == |kept| + 1 then amount else 0
  {
  }

  lemma SourceStep(kept: seq<int>, funds: int, rest: int, amount: int)
    ensures (kept + [rest, amount])[0] == (kept + [funds])[0] + if kept == [] then rest - funds else 0
  {
  }

  /** A payer holds at least what it received. */
  lemma LevelCanPay(l: Ledger, source: Key, dests: seq<Key>, total: int, kept: seq<int>, funds: int, now: Ledger,
                    funded: seq<Key>, cost: int)
    requires LevelsHold(l, source, dests, total, kept + [funds], now) && OnLevel(source, dests, funded, |kept|)
    requires Balance(l, source) >= total && CanPay(l, dests, 0) && cost <= funds
    ensures CanPay(now, funded, cost)
  {
    hide LevelAt;
    var ks := kept + [funds];
    forall k | k in funded
      ensures Balance(now, k) >= cost
    {
      if k != source {
        var p: nat :| p < |dests| && dests[p] == k;
        assert ks[|kept|] == funds && KeyGained(l, dests, ks, now, p);
      }
    }
  }

  /** Payers keep a share, and up to three lamports that could not be divided. */
  ghost predicate Keeps(kept: seq<int>, perAccount: int) {
    forall i: nat :: i + 1 < |kept| ==> perAccount <= kept[i] <= perAccount + 3
  }

  /** The result of funding with any total: who holds what, and where the total went. */
  ghost predicate Distributed(l: Ledger, source: Key, dests: seq<Key>, total: int, fee: int, perAccount: int,
                              kept: seq<int>, r: Ledger)
  {
    && kept != [] && |dests| == TreeSize(|kept| - 1)
    && Keeps(kept, perAccount) && kept[|kept| - 1] >= 0
    && Worth(kept, fee) == total
    && LevelsHold(l, source, dests, total, kept, r)
  }

  ghost predicate Shared(l: Ledger, source: Key, dests: seq<Key>, total: int, fee: int, perAccount: int, r: Ledger) {
    exists kept :: Distributed(l, source, dests, total, fee, perAccount, kept, r)
  }

  /** The exact total of a tree leaves exactly a share on every level. */
  lemma {:induction false} ExactShares(kept: seq<int>, perAccount: nat, fee: nat)
    requires kept != [] && Keeps(kept, perAccount) && Worth(kept, fee) == Share(|kept| - 1, perAccount, fee)
    ensures forall i: nat :: i < |kept| ==> kept[i] == perAccount
    decreases |kept|
  {
    if |kept| > 1 {
      assert forall i: nat :: i < |kept[1..]| ==> kept[1..][i] == kept[i + 1];
      assert kept[0] + 4 * Worth(kept[1..], fee) == perAccount + 4 * Share(|kept| - 2, perAccount, fee);
      ExactShares(kept[1..], perAccount, fee);
      forall i: nat | 1 <= i < |kept|
        ensures kept[i] == perAccount
      {
        assert kept[i] == kept[1..][i - 1];
      }
    }
  }

  lemma DistributedIsFunded(l: Ledger, source: Key, dests: seq<Key>, total: int, fee: nat, perAccount: nat,
                            kept: seq<int>, r: Ledger, levels: nat)
    requires Distributed(l, source, dests, total, fee, perAccount, kept, r) && source !in dests
    requires |dests| == TreeSize(levels) && total == perAccount * (|dests| + 1) + fee * Payers(levels)
    ensures |kept| == levels + 1 && Funded(l, source, dests, total, perAccount, r)
  {
    SameTree(|kept| - 1, levels);
    ShareIsTotal(levels, perAccount, fee);
    ExactShares(kept, perAccount, fee);
    hide Worth, Share, TreeSize;
    forall k: Key
      ensures Balance(r, k) == Balance(l, k) + (if k in dests then perAccount else 0)
                               + (if k == source then perAccount - total else 0)
    {
      if k in dests {
        var p: nat :| p < |dests| && dests[p] == k;
        LevelAtIs(|dests| - 1 - p, levels);
        assert KeyGained(l, dests, kept, r, p);
      }
    }
  }

  lemma {:induction false} SameTree(a: nat, b: nat)
    requires Payers(a) == Payers(b)
    ensures a == b
  {
    if a > 0 && b > 0 {
      SameTree(a - 1, b - 1);
    }
  }

  /** The least total with which all rounds of a tree can be paid. */
  ghost function Needed(levels: nat, perAccount: nat, fee: nat): (r: nat) {
    (perAccount + fee) * Payers(levels)
  }

  lemma ProvidedEnough(l: Ledger, source: Key, dests: seq<Key>, total: int, fee: nat, perAccount: nat, levels: nat)
    requires Provided(l, source, dests, total, fee, perAccount, levels)
    ensures |dests| == TreeSize(levels) && Balance(l, source) >= total && CanPay(l, dests, 0)
    ensures total >= Needed(levels, perAccount, fee)
  {
    var p := Payers(levels);
    assert perAccount * (4 * p + 1) == perAccount * p + perAccount * (3 * p + 1);
    assert (perAccount + fee) * p == perAccount * p + fee * p;
  }

  lemma NeededNext(levels: nat, perAccount: nat, fee: nat, funds: int)
    requires levels > 0
    ensures Needed(levels, perAccount, fee) == perAccount + fee + 4 * Needed(levels - 1, perAccount, fee)
    ensures funds >= Needed(levels, perAccount, fee) <==>
              funds >= perAccount + fee && (funds - perAccount - fee) / 4 >= Needed(levels - 1, perAccount, fee)
  {
    MulFour(perAccount + fee, Payers(levels - 1));
  }

  /** The keys left after some rounds of a full tree are enough for one more round, or there are none. */
  lemma RoundFits(levels: nat, round: nat, left: nat)
    requires TreeSize(levels) - TreeSize(round) == left
    ensures left == 0 <==> round == levels
    ensures left > 0 ==> round < levels && 4 * Pow4(round) <= left
  {
    PayersNext(round);
    Pow4Positive(round);
    if round < levels {
      PayersGrow(round + 1, levels);
    } else if round > levels {
      PayersGrow(levels, round);
      SameTreeOr(levels, round);
    }
  }

  lemma {:induction false} PayersGrow(a: nat, b: nat)
    requires a <= b
    ensures Payers(a) <= Payers(b)
    decreases b
  {
    if a > 0 {
      PayersGrow(a - 1, b - 1);
    }
  }

  lemma SameTreeOr(a: nat, b: nat)
    requires a < b
    ensures Payers(a) != Payers(b)
  {
    if Payers(a) == Payers(b) {
      SameTree(a, b);
    }
  }

  /**
    Funds the keys level by level. Transactions are executed once each and cost exactly the fee.
    A failure is a subtraction below zero or a payment without cover. With a source that holds the
    total and keys without debts it succeeds exactly for a full tree and a total of at least a share
    and a fee per payer.
   */
  method FundKeys(ledger: Ledger, source: Key, dests: seq<Key>, total: nat, fee: nat, perAccount: nat, ghost levels: nat)
    returns (r: Option<Ledger>, transactions: nat, ghost kept: seq<int>)
    requires Distinct([source] + dests)
    ensures r.Some? ==> Distributed(ledger, source, dests, total, fee, perAccount, kept, r.value)
    ensures r.Some? ==> IsFullTree(|dests|) && transactions == Payers(|kept| - 1)
    ensures |dests| == TreeSize(levels) && Balance(ledger, source) >= total && CanPay(ledger, dests, 0) ==>
              (r.Some? <==> total >= Needed(levels, perAccount, fee))
    ensures Provided(ledger, source, dests, total, fee, perAccount, levels) ==>
              r.Some? && transactions == Payers(levels) && Funded(ledger, source, dests, total, perAccount, r.value)
  {
    hide Distinct, Settled, LevelsHold, OnLevel, Provided, Funded, Paid, CanPay, IsFullTree, Needed, Keeps, Worth, TreeSize;
    ghost var sound := |dests| == TreeSize(levels) && Balance(ledger, source) >= total && CanPay(ledger, dests, 0);
    var funded, funds, left := [source], total, dests;
    var now := ledger;
    transactions := 0;
    kept := [];
    PayeesApart([source], dests, source);
    DistinctParts([source], dests);
    StartLevels(ledger, source, dests, total);
    StartKept(total, perAccount, fee);
    if Provided(ledger, source, dests, total, fee, perAccount, levels) {
      ProvidedEnough(ledger, source, dests, total, fee, perAccount, levels);
    }
    assert [] + [total] == [total];
    while left != []
      invariant left <= dests && Distinct(funded + left) && funds >= 0
      invariant |funded| == Pow4(|kept|) && transactions == Payers(|kept|) && |dests| - |left| == TreeSize(|kept|)
      invariant OnLevel(source, dests, funded, |kept|) && LevelsHold(ledger, source, dests, total, kept + [funds], now)
      invariant Keeps(kept + [funds], perAccount) && Worth(kept + [funds], fee) == total
      invariant sound ==> |kept| <= levels
                          && (total >= Needed(levels, perAccount, fee) <==> funds >= Needed(levels - |kept|, perAccount, fee))
      decreases |left|
    {
      ghost var round := |kept|;
      StepSizes(round);
      if sound {
        RoundFits(levels, round, |left|);
        NeededNext(levels - round, perAccount, fee, funds);
      }
      if funds - perAccount - fee < 0 {
        return None, transactions, kept;
      }
      var amount := (funds - perAccount - fee) / MAX_SPENDS_PER_TX;
      if sound {
        LevelCanPay(ledger, source, dests, total, kept, funds, now, funded, 4 * amount + fee);
      }
      var next := FundRound(now, funded, left, amount, fee);
      if next.None? {
        return None, transactions, kept;
      }
      DistinctParts(funded, left);
      AfterRound(ledger, source, dests, total, kept, funds, perAccount, now, funded, left, amount, fee, next.value);
      transactions := transactions + |funded|;
      now, funded, left := next.value.ledger, next.value.funded, next.value.left;
      kept, funds := kept + [funds - fee - 4 * amount], amount;
      assert kept[..round] + [kept[round], funds] == kept + [funds];
    }
    EndKept(ledger, source, dests, total, fee, perAccount, kept, funds, now, levels);
    kept := kept + [funds];
    return Some(now), transactions, kept;
  }

  lemma StepSizes(round: nat)
    ensures Payers(round + 1) == Payers(round) + Pow4(round) && TreeSize(round + 1) == TreeSize(round) + 4 * Pow4(round)
    ensures Pow4(round) >= 1 && Pow4(round + 1) == 4 * Pow4(round)
  {
    PayersNext(round);
    Pow4Positive(round);
  }

  lemma StartKept(total: nat, perAccount: nat, fee: nat)
    ensures Keeps([total], perAccount) && Worth([total], fee) == total && TreeSize(0) == 0 && Pow4(0) == 1 && Payers(0) == 0
  {
  }

  lemma AfterRound(l: Ledger, source: Key, dests: seq<Key>, total: int, kept: seq<int>, funds: int, perAccount: int, now: Ledger,
                   funded: seq<Key>, left: seq<Key>, amount: int, fee: int, next: Round)
    requires LevelsHold(l, source, dests, total, kept + [funds], now) && OnLevel(source, dests, funded, |kept|)
    requires Distinct(dests) && Distinct(left) && source !in dests && left <= dests
    requires |funded| == Pow4(|kept|) && |dests| - |left| == TreeSize(|kept|)
    requires Paid(now, funded, left, amount, fee, next)
    requires Keeps(kept + [funds], perAccount) && Worth(kept + [funds], fee) == total
    requires perAccount <= funds - fee - 4 * amount <= perAccount + 3
    ensures next.left <= dests && |next.left| < |left| && Distinct(next.funded + next.left)
    ensures |next.funded| == Pow4(|kept| + 1) && |dests| - |next.left| == TreeSize(|kept| + 1)
    ensures OnLevel(source, dests, next.funded, |kept| + 1)
    ensures var after := kept + [funds - fee - 4 * amount, amount];
            && LevelsHold(l, source, dests, total, after, next.ledger)
            && Keeps(after, perAccount) && Worth(after, fee) == total
  {
    hide LevelsHold, OnLevel, Distinct, Settled, Drained, Worth, TreeSize;
    StepSizes(|kept|);
    RoundKeys(now, funded, left, dests, amount, fee, next);
    NextOnLevel(source, dests, left, next.funded, next.left, |kept|);
    LevelsStep(l, source, dests, total, kept, funds, now, funded, amount, fee, next.funded, next.ledger);
    WorthSplit(kept, funds - fee - 4 * amount, amount, fee);
    KeepsMore(kept, funds, perAccount, funds - fee - 4 * amount, amount);
  }

  lemma KeepsMore(kept: seq<int>, funds: int, perAccount: int, rest: int, amount: int)
    requires Keeps(kept + [funds], perAccount) && perAccount <= rest <= perAccount + 3
    ensures Keeps(kept + [rest, amount], perAccount)
  {
    var before, after := kept + [funds], kept + [rest, amount];
    forall i: nat | i + 1 < |after|
      ensures perAccount <= after[i] <= perAccount + 3
    {
      assert i < |kept| ==> after[i] == before[i];
    }
  }

  lemma EndKept(l: Ledger, source: Key, dests: seq<Key>, total: nat, fee: nat, perAccount: nat, kept: seq<int>, funds: int,
                now: Ledger, levels: nat)
    requires |dests| == TreeSize(|kept|) && source !in dests && funds >= 0
    requires LevelsHold(l, source, dests, total, kept + [funds], now)
    requires Keeps(kept + [funds], perAccount) && Worth(kept + [funds], fee) == total
    ensures Distributed(l, source, dests, total, fee, perAccount, kept + [funds], now) && IsFullTree(|dests|)
    ensures |dests| == TreeSize(levels) ==> |kept| == levels && Needed(0, perAccount, fee) == 0
    ensures Provided(l, source, dests, total, fee, perAccount, levels) ==> Funded(l, source, dests, total, perAccount, now)
  {
    hide LevelsHold, Worth, Keeps, Funded;
    TreeHasLevels(|kept|);
    if |dests| == TreeSize(levels) {
      SameTree(|kept|, levels);
    }
    if Provided(l, source, dests, total, fee, perAccount, levels) {
      DistributedIsFunded(l, source, dests, total, fee, perAccount, kept + [funds], now, levels);
    }
  }

  // ---------------------------------------------------------------------------
  // Deciding whether to fund

  /** Stuck stands for a panic or for payments that never go through. */
  datatype Outcome = Done(ledger: Ledger) | AirdropFailure | Stuck

  predicate EnoughLeft(l: Ledger, k: Key, perAccount: nat) {
    Balance(l, k) >= 8 * perAccount / 10
  }

  function Total(keys: nat, extra: nat, perAccount: nat, fee: nat): (r: nat) {
    perAccount * (keys + 1) + fee * extra
  }

  /** The funder asks for what it lacks of the total and the rent. */
  function ToppedUp(l: Ledger, funder: Key, needed: nat): (r: Ledger) {
    if Balance(l, funder) < needed then l[funder := needed] else l
  }

  /** Less than four fifths of a share is left, the four fifths rounded down to whole lamports. */
  ghost predicate Depleted(l: Ledger, k: Key, perAccount: nat) {
    10 * Balance(l, k) + 9 < 8 * perAccount
  }

  ghost predicate Due(l: Ledger, keys: seq<Key>, perAccount: nat)
    requires keys != []
  {
    Depleted(l, keys[0], perAccount) || Depleted(l, keys[|keys| - 1], perAccount)
  }

  /**
    The balances after a run that funds: the faucet raises the funder to the total and the rent if
    it holds less, the funder gives the total and keeps one share, every key gains one share, and
    nobody else is touched.
   */
  ghost predicate FundedFrom(l: Ledger, funder: Key, keys: seq<Key>, total: int, rent: int, perAccount: int, r: Ledger) {
    && Balance(r, funder) == perAccount - total + (if Balance(l, funder) < total + rent then total + rent else Balance(l, funder))
    && (forall k :: k in keys ==> Balance(r, k) == Balance(l, k) + perAccount)
    && (forall k :: k != funder && k !in keys ==> Balance(r, k) == Balance(l, k))
  }

  lemma FundedByFaucet(l: Ledger, funder: Key, keys: seq<Key>, total: nat, rent: nat, perAccount: nat, r: Ledger)
    requires funder !in keys && Funded(ToppedUp(l, funder, total + rent), funder, keys, total, perAccount, r)
    ensures FundedFrom(l, funder, keys, total, rent, perAccount, r)
  {
  }

  /**
    Funds the keys unless the first and the last still hold four fifths of their share. `airdrop`
    says whether the faucet grants what the funder lacks.
   */
  method FundKeypairs(ledger: Ledger, funder: Key, keys: seq<Key>, extra: nat, perAccount: nat,
                      fee: nat, rent: nat, airdrop: bool, ghost levels: nat)
    returns (r: Outcome)
    requires Distinct([funder] + keys) && CanPay(ledger, keys, 0)
    ensures keys == [] ==> r == Stuck
    ensures keys != [] && !Due(ledger, keys, perAccount) ==> r == Done(ledger)
    ensures keys != [] && Due(ledger, keys, perAccount) ==>
              var total := perAccount * (|keys| + 1) + fee * extra;
              && (r.AirdropFailure? <==> Balance(ledger, funder) < total + rent && !airdrop)
              && (r.Done? ==> IsFullTree(|keys|)
                              && Shared(ToppedUp(ledger, funder, total + rent), funder, keys, total, fee, perAccount, r.ledger))
              && (|keys| == TreeSize(levels) && !r.AirdropFailure? ==>
                    (r.Done? <==> total >= Needed(levels, perAccount, fee)))
              && (|keys| == TreeSize(levels) && extra == Payers(levels) && !r.AirdropFailure? ==>
                    r.Done? && FundedFrom(ledger, funder, keys, total, rent, perAccount, r.ledger))
  {
    hide Distinct, Funded, FundedFrom, Distributed, Needed;
    if keys == [] {
      return Stuck;
    }
    if EnoughLeft(ledger, keys[0], perAccount) && EnoughLeft(ledger, keys[|keys| - 1], perAccount) {
      return Done(ledger);
    }
    var total := Total(|keys|, extra, perAccount, fee);
    if Balance(ledger, funder) < total + rent && !airdrop {
      return AirdropFailure;
    }
    PayeesApart([funder], keys, funder);
    var funds, _, kept := FundKeys(ToppedUp(ledger, funder, total + rent), funder, keys, total, fee, perAccount, levels);
    if funds.None? {
      return Stuck;
    }
    if |keys| == TreeSize(levels) && extra == Payers(levels) {
      FundedByFaucet(ledger, funder, keys, total, rent, perAccount, funds.value);
    }
    return Done(funds.value);
  }

  /**
    Two runs with the same new keys. In between the accounts are used in any way that leaves the
    keys no debts. The second run leaves everything as it is exactly if the first and the last key
    have each spent no more than a fifth of their share, rounded up to whole lamports; if one of
    them has spent a fifth and more than a lamport on top, it funds all keys again.
   */
  method FundTwice(ledger: Ledger, funder: Key, keys: seq<Key>, extra: nat, perAccount: nat, fee: nat, rent: nat,
                   airdrop: bool, airdropAgain: bool, spend: Ledger -> Ledger, ghost levels: nat)
    returns (first: Outcome, second: Outcome)
    requires Distinct([funder] + keys) && keys != [] && |keys| == TreeSize(levels) && extra == Payers(levels)
    requires perAccount >= 2 && forall k :: k in keys ==> Balance(ledger, k) == 0
    requires forall l :: CanPay(spend(l), keys, 0)
    ensures first.Done? <==> Balance(ledger, funder) >= perAccount * (|keys| + 1) + fee * extra + rent || airdrop
    ensures first.Done? ==>
              && Balance(first.ledger, keys[0]) == Balance(first.ledger, keys[|keys| - 1]) == perAccount
              && var later := spend(first.ledger); var total := perAccount * (|keys| + 1) + fee * extra;
                 var spent, spentToo := perAccount - Balance(later, keys[0]), perAccount - Balance(later, keys[|keys| - 1]);
                 && (10 * spent <= 2 * perAccount + 9 && 10 * spentToo <= 2 * perAccount + 9 ==> second == Done(later))
                 && (10 * spent > 2 * perAccount + 9 || 10 * spentToo > 2 * perAccount + 9 ==>
                       if Balance(later, funder) < total + rent && !airdropAgain then second == AirdropFailure
                       else second.Done? && FundedFrom(later, funder, keys, total, rent, perAccount, second.ledger))
                 && (5 * spent <= perAccount && 5 * spentToo <= perAccount ==> second == Done(later))
                 && (5 * (spent - 1) > perAccount || 5 * (spentToo - 1) > perAccount ==> second != Done(later))
  {
    hide Distinct;
    first := FundKeypairs(ledger, funder, keys, extra, perAccount, fee, rent, airdrop, levels);
    second := first;
    if first.Done? {
      var later := spend(first.ledger);
      assert keys[0] in keys && keys[|keys| - 1] in keys;
      second := FundKeypairs(later, funder, keys, extra, perAccount, fee, rent, airdropAgain, levels);
    }
  }

  function FirstKeys(generated: nat -> Key, n: nat): (r: seq<Key>)
    ensures |r| == n && forall i: nat :: i < n ==> r[i] == generated(i)
  {
    if n == 0 then [] else FirstKeys(generated, n - 1) + [generated(n - 1)]
  }

  /**
    Generates the smallest full tree of keys with at least `count` of them, funds it and hands out
    the first `count` keys. For new keys, which hold nothing, the operation gets stuck only on a
    request for no key, fails at the faucet exactly when the funder lacks something and the faucet
    does not grant it, and else leaves every generated key with exactly its share.
   */
  method GenerateAndFund(ledger: Ledger, funder: Key, generated: nat -> Key, count: nat, lamports: nat,
                         fee: nat, rent: nat, airdrop: bool)
    returns (r: Outcome, keys: seq<Key>, ghost levels: nat)
    requires forall i, j :: generated(i) == generated(j) ==> i == j
    requires forall i :: generated(i) != funder && Balance(ledger, generated(i)) == 0
    ensures TreeSize(levels) >= count && (levels > 0 ==> TreeSize(levels - 1) < count)
    ensures r.Stuck? <==> count == 0
    ensures count > 0 ==> keys == FirstKeys(generated, count)
    ensures count > 0 && lamports + rent < 2 ==> r == Done(ledger)
    ensures count > 0 && lamports + rent >= 2 ==>
              var total := (lamports + rent) * (TreeSize(levels) + 1) + fee * Payers(levels);
              if Balance(ledger, funder) < total + rent && !airdrop then r == AirdropFailure
              else r.Done? && FundedFrom(ledger, funder, FirstKeys(generated, TreeSize(levels)), total, rent,
                                         lamports + rent, r.ledger)
    ensures r.Done? && lamports + rent >= 2 ==>
              (forall k :: k in FirstKeys(generated, TreeSize(levels)) ==> Balance(r.ledger, k) == lamports + rent) &&
              Balance(r.ledger, funder) >= lamports + rent + rent
  {
    var perAccount := lamports + rent;
    var total, extra;
    total, extra, levels := GenerateKeypairs(count);
    var all := FirstKeys(generated, total);
    FreshKeys(ledger, funder, generated, total);
    r := FundKeypairs(ledger, funder, all, extra, perAccount, fee, rent, airdrop, levels);
    keys := all[..count];
  }

  lemma FreshKeys(l: Ledger, funder: Key, generated: nat -> Key, n: nat)
    requires forall i, j :: generated(i) == generated(j) ==> i == j
    requires forall i :: generated(i) != funder && Balance(l, generated(i)) == 0
    ensures Distinct([funder] + FirstKeys(generated, n)) && funder !in FirstKeys(generated, n)
    ensures forall k :: k in FirstKeys(generated, n) ==> Balance(l, k) == 0
  {
  }
}
