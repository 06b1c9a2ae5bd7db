/** Whole runs: any sequence of operations leaves a bucket map in step with a plain map. */
module BucketRuns {
  import opened Options
  import opened Arithmetic
  import opened Storage
  import opened IndexEntries
  import opened BucketState
  import opened BucketSteps
  import opened Buckets
  import opened BucketApis
  import opened BucketMaps

  /**
    Operations on one key. `TryWrite` is a single attempt, `Grow` computes the resize for an error
    under the read lock of the key's bucket, and `Store` repeats the two until the attempt succeeds.
   */
  datatype Op<!T> =
    | Insert(key: Pubkey, slots: seq<T>, refCount: nat)
    | Store(key: Pubkey, slots: seq<T>, refCount: nat)
    | TryWrite(key: Pubkey, slots: seq<T>, refCount: nat)
    | Grow(key: Pubkey, error: BucketMapError)
    | Update(key: Pubkey, updatefn: Option<Value<T>> -> Option<Value<T>>)
    | Delete(key: Pubkey)
    | AddRef(key: Pubkey)
    | UnRef(key: Pubkey)
    | Read(key: Pubkey)

  datatype Reply<+T> = Silence | Found(value: Option<Value<T>>) | Counted(count: Option<nat>) | Tried(outcome: Outcome)

  /** What an operation does to a plain map. Only an attempt to write may do one thing or another. */
  ghost function Apply<T>(m: map<Pubkey, Value<T>>, op: Op<T>, reply: Reply<T>): (r: map<Pubkey, Value<T>>) {
    match op
    case Insert(key, slots, refCount) => m[key := Value(slots, refCount)]
    case Store(key, slots, refCount) => m[key := Value(slots, refCount)]
    case TryWrite(key, slots, refCount) => if reply.Tried? then Written(m, key, slots, refCount, reply.outcome) else m
    case Update(key, updatefn) => Changed(m, key, updatefn(Lookup(m, key)))
    case Delete(key) => m - {key}
    case AddRef(key) => Recounted(m, key, CountUp)
    case UnRef(key) => Recounted(m, key, CountDown)
    case _ => m
  }

  /** A refused write lacks an index cell, which only a new key needs, or a cell for a list of its length. */
  ghost predicate Complains<T>(m: map<Pubkey, Value<T>>, key: Pubkey, n: nat, error: BucketMapError) {
    match error
    case IndexNoSpace(_) => key !in m
    case DataNoSpace(d, _) => d == CeilLog2(n)
  }

  /** What a plain map replies to an operation. */
  ghost predicate Answers<T>(m: map<Pubkey, Value<T>>, op: Op<T>, reply: Reply<T>) {
    match op
    case TryWrite(key, slots, _) => reply.Tried? && (reply.outcome.Err? ==> Complains(m, key, |slots|, reply.outcome.error))
    case AddRef(key) => reply == Counted(CountOf(m, key, CountUp))
    case UnRef(key) => reply == Counted(CountOf(m, key, CountDown))
    case Read(key) => reply == Found(Lookup(m, key))
    case _ => reply == Silence
  }

  /** An operation leaves a data cell occupied without an owner. */
  ghost predicate OpLeaks<T>(m: map<Pubkey, Value<T>>, op: Op<T>, reply: Reply<T>) {
    match op
    case Insert(key, slots, _) => Leaky(m, key, slots)
    case Store(key, slots, _) => Leaky(m, key, slots)
    case TryWrite(key, slots, _) => reply == Tried(Ok) && Leaky(m, key, slots)
    case Update(key, updatefn) => ChangeLeaks(m, key, updatefn(Lookup(m, key)))
    case _ => false
  }

  /** What an operation that gave up has done to a plain map. */
  ghost predicate Partly<T>(m: map<Pubkey, Value<T>>, m': map<Pubkey, Value<T>>, op: Op<T>) {
    match op
    case Insert(key, _, refCount) => Touched(m, m', key, refCount)
    case Store(key, _, refCount) => Touched(m, m', key, refCount)
    case Update(key, updatefn) =>
      var value := updatefn(Lookup(m, key));
      value.Some? && Touched(m, m', key, value.value.refCount)
    case _ => m' == m
  }

  /**
    The error of the last write to a bucket, if it was refused and has not been grown for: reads
    keep it, everything else settles it.
   */
  ghost function NextDue<T>(due: Option<BucketMapError>, op: Op<T>, reply: Reply<T>): (r: Option<BucketMapError>) {
    match op
    case TryWrite(_, _, _) => if reply.Tried? && reply.outcome.Err? then Some(reply.outcome.error) else None
    case Read(_) => due
    case _ => None
  }

  /** A grow for the error that is due does not panic. */
  ghost predicate Ready<T>(api: BucketApi<T>, due: Option<BucketMapError>)
    requires api.Valid()
    reads api, api.repr
  {
    due.Some? ==> api.GrowSafe(due.value)
  }

  /** What is due is at most a data storage that is missing. */
  predicate Modest(due: Option<BucketMapError>) {
    due.Some? ==> due.value.DataNoSpace? && due.value.pow2 == 0
  }

  /**
    Why an operation gave up: its bucket cannot grow any more, or it is a grow for an error that is
    not due and it panicked.
   */
  ghost predicate Blocked<T>(api: BucketApi<T>, m: map<Pubkey, Value<T>>, op: Op<T>, due: Option<BucketMapError>)
    requires api.Valid()
    reads api, api.repr
  {
    match op
    case Insert(key, slots, _) => api.Stuck(key, |slots|)
    case Store(key, slots, _) => api.Stuck(key, |slots|)
    case Update(key, updatefn) =>
      var value := updatefn(Lookup(m, key));
      value.Some? && api.Stuck(key, |value.value.slots|)
    case Grow(_, error) => api.GrowStuck(error) || (due != Some(error) && !api.GrowSafe(error))
    case _ => false
  }

  /** There is room for what an operation is to store. */
  ghost predicate Certain<T>(api: BucketApi<T>, op: Op<T>)
    requires api.Valid()
    reads api, api.repr
  {
    match op
    case Insert(key, slots, _) => api.Easy(key, |slots|)
    case Store(key, slots, _) => api.Easy(key, |slots|)
    case Update(key, updatefn) =>
      var value := updatefn(Lookup(api.contents, key));
      value.Some? ==> api.Easy(key, |value.value.slots|)
    case _ => !op.Grow?
  }

  /** There is no room for the key of an operation, and no larger index. */
  ghost predicate Hopeless<T>(api: BucketApi<T>, op: Op<T>)
    requires api.Valid()
    reads api, api.repr
  {
    match op
    case Insert(key, _, _) => api.Doomed(key)
    case Store(key, _, _) => api.Doomed(key)
    case Update(key, updatefn) => updatefn(Lookup(api.contents, key)).Some? && api.Doomed(key)
    case _ => false
  }

  /**
    What an operation leaves behind besides contents. After a refused write the bucket is as the
    error says and a grow for it is safe; after a grow the storage is to have the next capacity.
   */
  ghost predicate Aftermath<T>(api: BucketApi<T>, op: Op<T>, reply: Reply<T>)
    requires api.Valid()
    reads api, api.repr
  {
    match op
    case TryWrite(key, slots, _) =>
      reply.Tried? && reply.outcome.Err? ==>
        api.Refused(key, |slots|, reply.outcome.error) && api.GrowSafe(reply.outcome.error)
    case Grow(_, DataNoSpace(d, pow2)) => api.bucket != null ==> api.FinalPow2(d) == NextPow2(pow2)
    case Grow(_, IndexNoSpace(pow2)) =>
      api.bucket != null && api.bucket.index.capacityPow2 == pow2 ==> NextLarger(api.env, api.contents.Keys, pow2, api.IndexPow2())
    case _ => true
  }

  // ---------------------------------------------------------------------------
  // Single steps

  /** One attempt, and after an error the growth that the error asks for, under the read lock. */
  method StoreRound<T>(api: BucketApi<T>, key: Pubkey, slots: seq<T>, refCount: nat) returns (r: Round)
    requires api.Valid()
    modifies api.repr
    ensures api.Valid() && fresh(api.repr - old(api.repr))
    ensures r.Done? ==> api.contents == old(api.contents)[key := Value(slots, refCount)]
    ensures !r.Done? ==> Touched(old(api.contents), api.contents, key, refCount)
    ensures r.Failed? ==> api.Stuck(key, |slots|)
    ensures api.leaked == old(api.leaked) + if r.Done? && Leaky(old(api.contents), key, slots) then 1 else 0
    ensures var d := CeilLog2(|slots|);
            r.Grown? ==> 0 <= Slack(api.IndexPow2(), api.FinalPow2(d)) < Slack(old(api.IndexPow2()), old(api.FinalPow2(d)))
    ensures InPlace(old(api.contents), key, |slots|) ==> r.Done?
    ensures old(api.HasRoom(key)) && old(api.FinalRoomy(CeilLog2(|slots|))) ==> r.Done?
    ensures old(api.Easy(key, |slots|)) ==> !r.Failed? && (r.Grown? ==> api.HasRoom(key) && api.FinalRoomy(CeilLog2(|slots|)))
    ensures old(api.Doomed(key)) ==> !r.Done? && (r.Grown? ==> api.Doomed(key))
    ensures Calm(api.env, old(api.contents), old(api.leaked), key) ==>
              !r.Failed? && (r.Grown? ==> old(api.FinalPow2(CeilLog2(|slots|))) == 0 < api.FinalPow2(CeilLog2(|slots|)))
  {
    hide BucketApi.Valid, WithCount, Leaky, Calm, Cramped, NextPow2, Roomy, CeilLog2, BucketApi.FinalRoomy, BucketApi.HasRoom;
    hide BucketApi.Stuck, BucketApi.FinalPow2, BucketApi.GrowSafe, Crowded, InPlace, MayJam;
    ghost var m := api.contents;
    var outcome := api.TryWrite(key, slots, refCount);
    if outcome.Ok? {
      return Done;
    }
    WrittenTouched(m, key, slots, refCount, outcome);
    NextPow2Limit(outcome.error.pow2);
    var growth := api.Grow(outcome.error);
    api.Bounded(CeilLog2(|slots|));
    if growth.Fine? {
      return Grown;
    }
    api.StuckBy(key, |slots|, outcome.error);
    r := Failed;
  }

  /**
    The loop of a writer that grows the bucket itself, under the read lock, after each failed
    attempt. No grow panics. If the index has room for the key and its data storage has room or can
    grow then the second attempt succeeds at the latest, whatever the random numbers; also if there
    are few keys. If the index has no room and is at the largest capacity no attempt succeeds.
   */
  method StoreValue<T>(api: BucketApi<T>, key: Pubkey, slots: seq<T>, refCount: nat) returns (ok: bool, ghost tries: nat)
    requires api.Valid()
    modifies api.repr
    ensures api.Valid() && fresh(api.repr - old(api.repr))
    ensures ok ==> api.contents == old(api.contents)[key := Value(slots, refCount)]
    ensures !ok ==> Touched(old(api.contents), api.contents, key, refCount) && api.Stuck(key, |slots|)
    ensures api.leaked == old(api.leaked) + if ok && Leaky(old(api.contents), key, slots) then 1 else 0
    ensures old(api.Easy(key, |slots|)) ==> ok && tries <= 2
    ensures old(api.Doomed(key)) ==> !ok
    ensures Calm(api.env, old(api.contents), old(api.leaked), key) ==> ok && tries <= 2
  {
    hide BucketApi.Valid, WithCount, Leaky, Calm, CeilLog2, BucketApi.FinalRoomy, BucketApi.HasRoom;
    hide BucketApi.FinalPow2, BucketApi.IndexPow2, BucketApi.Stuck, BucketApi.Easy, BucketApi.Doomed;
    ghost var d, before, leaked := CeilLog2(|slots|), api.contents, api.leaked;
    ghost var easy, doomed, calm := api.Easy(key, |slots|), api.Doomed(key), Calm(api.env, before, leaked, key);
    tries := 0;
    while true
      invariant api.Valid() && fresh(api.repr - old(api.repr))
      invariant Touched(before, api.contents, key, refCount) && api.leaked == leaked
      invariant easy ==> tries <= 1
      invariant easy ==> if tries == 0 then api.Easy(key, |slots|) else api.HasRoom(key) && api.FinalRoomy(d)
      invariant doomed ==> api.Doomed(key)
      invariant calm ==> tries <= 1 && Calm(api.env, api.contents, leaked, key)
      invariant calm && tries == 1 ==> api.FinalPow2(d) > 0
      decreases Slack(api.IndexPow2(), api.FinalPow2(d))
    {
      ghost var m := api.contents;
      TouchedThenWritten(before, m, key, refCount, slots);
      var r := StoreRound(api, key, slots, refCount);
      tries := tries + 1;
      if r.Done? {
        return true, tries;
      }
      TouchedTwice(before, m, api.contents, key, refCount);
      TouchedCalm(api.env, m, api.contents, key, refCount, leaked);
      if r.Failed? {
        return false, tries;
      }
    }
  }

  lemma WrittenTouched<T>(m: map<Pubkey, Value<T>>, key: Pubkey, slots: seq<T>, refCount: nat, r: Outcome)
    requires r.Err?
    ensures Touched(m, Written(m, key, slots, refCount, r), key, refCount)
  {
  }

  lemma Complained<T>(m: map<Pubkey, Value<T>>, key: Pubkey, slots: seq<T>, refCount: nat, error: BucketMapError)
    requires error.IndexNoSpace? ==> key !in Written(m, key, slots, refCount, Err(error))
    requires error.DataNoSpace? ==> error.dataIndex == CeilLog2(|slots|)
    ensures Complains(m, key, |slots|, error)
  {
  }

  /** One operation on a bucket. It gives up only for the stated reason, and not with few keys. */
  method BucketStep<T>(api: BucketApi<T>, op: Op<T>, ghost due: Option<BucketMapError>) returns (ok: bool, reply: Reply<T>)
    requires api.Valid() && Ready(api, due)
    modifies api.repr
    ensures api.Valid() && fresh(api.repr - old(api.repr))
    ensures ok ==> api.contents == Apply(old(api.contents), op, reply) && Answers(old(api.contents), op, reply)
    ensures !ok ==> Partly(old(api.contents), api.contents, op) && Blocked(api, old(api.contents), op, due)
    ensures ok ==> Aftermath(api, op, reply) && Ready(api, NextDue(due, op, reply))
    ensures api.leaked == old(api.leaked) + if ok && OpLeaks(old(api.contents), op, reply) then 1 else 0
    ensures (old(Certain(api, op)) ==> ok) && (old(Hopeless(api, op)) ==> !ok)
    ensures Calm(api.env, old(api.contents), old(api.leaked), op.key) && Modest(due) ==>
              (ok || (op.Grow? && due != Some(op.error))) && (ok ==> Modest(NextDue(due, op, reply)))
  {
    hide BucketApi.Valid, Leaky, ChangeLeaks, Changed, Touched, Written, Recounted, CountOf, Calm;
    hide BucketApi.Stuck, BucketApi.GrowSafe, BucketApi.FinalRoomy, BucketApi.Easy, BucketApi.Doomed, CeilLog2, NextLarger;
    ok, reply := true, Silence;
    match op
    case Insert(key, slots, refCount) => ok := api.Insert(key, slots, refCount);
    case Store(key, slots, refCount) =>
      ghost var tries;
      ok, tries := StoreValue(api, key, slots, refCount);
    case TryWrite(key, slots, refCount) =>
      ghost var m := api.contents;
      var r := api.TryWrite(key, slots, refCount);
      if r.Err? {
        Complained(m, key, slots, refCount, r.error);
      }
      reply := Tried(r);
    case Grow(_, error) =>
      var growth := api.Grow(error);
      ok := growth.Fine?;
    case Update(key, updatefn) =>
      ghost var value;
      ok, value := api.Update(key, updatefn);
    case Delete(key) => api.DeleteKey(key);
    case AddRef(key) =>
      var n := api.AddRef(key);
      reply := Counted(n);
    case UnRef(key) =>
      var n := api.UnRef(key);
      reply := Counted(n);
    case Read(key) =>
      var v := api.ReadValue(key);
      reply := Found(v);
  }

  lemma AtMostTwo<T>(api: BucketApi<T>)
    requires api.Valid() && api.env == AllCollide()
    ensures |api.contents| <= 2
  {
    hide StateOk, Stored, Leaks, AllCollide;
    if api.bucket != null {
      NoThirdKey(api.bucket.View());
    }
  }

  /** Where all keys collide and probes visit two cells an insert of a third key grows things to the limit and fails. */
  method ThirdInsertFails<T>(api: BucketApi<T>, key: Pubkey, slots: seq<T>, refCount: nat) returns (ok: bool)
    requires api.Valid() && api.env == AllCollide() && |api.contents| == 2 && key !in api.contents
    modifies api.repr
    ensures api.Valid() && fresh(api.repr - old(api.repr))
    ensures !ok && api.bucket != null
    ensures api.bucket.index.capacityPow2 >= MAX_CAPACITY_POW2 || api.bucket.DataPow2(CeilLog2(|slots|)) >= MAX_CAPACITY_POW2
  {
    hide BucketApi.Valid, CeilLog2, Leaky, AllCollide, BucketApi.Stuck, BucketApi.Easy, BucketApi.Doomed;
    ok := api.Insert(key, slots, refCount);
    assert ok ==> |api.contents| == 3;
    AtMostTwo(api);
    StuckWithTwo(api, key, |slots|);
  }

  lemma StuckWithTwo<T>(api: BucketApi<T>, key: Pubkey, n: nat)
    requires api.Valid() && api.env == AllCollide() && |api.contents| <= 2 && api.Stuck(key, n)
    ensures api.bucket != null
    ensures api.bucket.index.capacityPow2 >= MAX_CAPACITY_POW2 || api.bucket.DataPow2(CeilLog2(n)) >= MAX_CAPACITY_POW2
  {
    hide Bucket.Valid, Stored, Leaks, Cramped, Crowded, Roomy, CeilLog2, AllCollide, Bucket.ParkedOk;
    if api.bucket.index.capacityPow2 < MAX_CAPACITY_POW2 {
      TwoNotCramped(api);
    }
  }

  /** Two keys can always be re-indexed if a probe visits two cells. */
  lemma TwoNotCramped<T>(api: BucketApi<T>)
    requires api.Valid() && api.env == AllCollide() && api.bucket != null && |api.contents| <= 2
    requires api.bucket.index.capacityPow2 < MAX_CAPACITY_POW2
    ensures !Cramped(api.env, Stored(api.env, api.bucket.View()).Keys, api.bucket.index.capacityPow2)
  {
    hide StateOk, Stored, Leaks, Cramped;
    var keys := api.contents.Keys;
    assert |keys| == |api.contents|;
    assert Pow2(MAX_CAPACITY_POW2) == 2 * Pow2(MAX_CAPACITY_POW2 - 1);
    assert Reach(AllCollide(), MAX_CAPACITY_POW2) == 2;
    if Cramped(api.env, keys, api.bucket.index.capacityPow2) {
      CrampedMany(api.env, keys, api.bucket.index.capacityPow2);
    }
  }

  // ---------------------------------------------------------------------------
  // Runs of a plain map

  ghost function ApplyAll<T>(m: map<Pubkey, Value<T>>, ops: seq<Op<T>>, replies: seq<Reply<T>>): (r: map<Pubkey, Value<T>>)
    requires |replies| == |ops|
  {
    if |ops| == 0 then m
    else var last := |ops| - 1; Apply(ApplyAll(m, ops[..last], replies[..last]), ops[last], replies[last])
  }

  /** Every reply of a run is the one that the plain map gives at that point. */
  ghost predicate AllAnswer<T>(m: map<Pubkey, Value<T>>, ops: seq<Op<T>>, replies: seq<Reply<T>>)
    requires |replies| == |ops|
  {
    forall i :: 0 <= i < |ops| ==> Answers(ApplyAll(m, ops[..i], replies[..i]), ops[i], replies[i])
  }

  /** How many operations of a run, among those routed to one bucket, overwrite a one-slot list by an empty one. */
  ghost function Leaking<T>(m: map<Pubkey, Value<T>>, ops: seq<Op<T>>, replies: seq<Reply<T>>, pow2: nat, ix: nat): (n: nat)
    requires |replies| == |ops| && pow2 <= 64
  {
    if |ops| == 0 then 0
    else
      var last := |ops| - 1;
      Leaking(m, ops[..last], replies[..last], pow2, ix)
      + if BucketIx(ops[last].key, pow2) == ix && OpLeaks(ApplyAll(m, ops[..last], replies[..last]), ops[last], replies[last])
        then 1 else 0
  }

  lemma RunNext<T>(m: map<Pubkey, Value<T>>, ops: seq<Op<T>>, replies: seq<Reply<T>>, reply: Reply<T>, pow2: nat, ix: nat)
    requires |replies| < |ops| && pow2 <= 64
    ensures var i := |replies|; var m' := ApplyAll(m, ops[..i], replies);
            && ApplyAll(m, ops[..i + 1], replies + [reply]) == Apply(m', ops[i], reply)
            && Leaking(m, ops[..i + 1], replies + [reply], pow2, ix)
               == Leaking(m, ops[..i], replies, pow2, ix) + (if BucketIx(ops[i].key, pow2) == ix && OpLeaks(m', ops[i], reply) then 1 else 0)
            && (AllAnswer(m, ops[..i], replies) && Answers(m', ops[i], reply) ==> AllAnswer(m, ops[..i + 1], replies + [reply]))
  {
    hide Apply, Answers, AllAnswer, OpLeaks, BucketIx;
    var i := |replies|;
    assert ops[..i + 1][..i] == ops[..i] && (replies + [reply])[..i] == replies;
    if AllAnswer(m, ops[..i], replies) && Answers(ApplyAll(m, ops[..i], replies), ops[i], reply) {
      AnswersNext(m, ops, replies, reply);
    }
  }

  lemma AnswersNext<T>(m: map<Pubkey, Value<T>>, ops: seq<Op<T>>, replies: seq<Reply<T>>, reply: Reply<T>)
    requires |replies| < |ops| && AllAnswer(m, ops[..|replies|], replies)
    requires Answers(ApplyAll(m, ops[..|replies|], replies), ops[|replies|], reply)
    ensures AllAnswer(m, ops[..|replies| + 1], replies + [reply])
  {
    hide Answers, ApplyAll;
    var i := |replies|;
    var longer := replies + [reply];
    assert ops[..i + 1][..i] == ops[..i] && longer[..i] == replies;
    forall j | 0 <= j < i
      ensures ops[..i + 1][..j] == ops[..i][..j] && longer[..j] == replies[..j]
    {
    }
  }

  /** What is due at one bucket after a run: see NextDue. */
  ghost function DueAfter<T>(ops: seq<Op<T>>, replies: seq<Reply<T>>, pow2: nat, ix: nat): (r: Option<BucketMapError>)
    requires |replies| == |ops| && pow2 <= 64
  {
    if |ops| == 0 then None
    else
      var last := |ops| - 1;
      var due := DueAfter(ops[..last], replies[..last], pow2, ix);
      if BucketIx(ops[last].key, pow2) == ix then NextDue(due, ops[last], replies[last]) else due
  }

  lemma DueNext<T>(ops: seq<Op<T>>, replies: seq<Reply<T>>, reply: Reply<T>, pow2: nat, ix: nat)
    requires |replies| < |ops| && pow2 <= 64
    ensures var i := |replies|; var due := DueAfter(ops[..i], replies, pow2, ix);
            DueAfter(ops[..i + 1], replies + [reply], pow2, ix)
              == if BucketIx(ops[i].key, pow2) == ix then NextDue(due, ops[i], reply) else due
  {
    hide BucketIx, NextDue;
    var i := |replies|;
    assert ops[..i + 1][..i] == ops[..i] && (replies + [reply])[..i] == replies;
  }

  // ---------------------------------------------------------------------------
  // When no operation can give up

  ghost function KeysOf<T>(ops: seq<Op<T>>): (keys: set<Pubkey>) {
    set i | 0 <= i < |ops| :: ops[i].key
  }

  /** An operation may write an empty list. */
  ghost predicate MayEmpty<T(!new)>(op: Op<T>) {
    match op
    case Insert(_, slots, _) => slots == []
    case Store(_, slots, _) => slots == []
    case TryWrite(_, slots, _) => slots == []
    case Update(_, updatefn) => exists v :: updatefn(v).Some? && updatefn(v).value.slots == []
    case _ => false
  }

  /** How many operations, among those routed to one bucket, may write an empty list. */
  ghost function Emptying<T(!new)>(ops: seq<Op<T>>, pow2: nat, ix: nat): (n: nat)
    requires pow2 <= 64
  {
    if |ops| == 0 then 0
    else var last := |ops| - 1;
      Emptying(ops[..last], pow2, ix) + if BucketIx(ops[last].key, pow2) == ix && MayEmpty(ops[last]) then 1 else 0
  }

  /**
    A run that is small for one bucket: the keys it has and those it is asked for, the cells it has
    leaked and those it may leak, are no more than a probe of the smallest table visits.
   */
  ghost predicate Small<T(!new)>(env: Env, m: map<Pubkey, Value<T>>, leaked: nat, ops: seq<Op<T>>, pow2: nat, ix: nat)
    requires pow2 <= 64
  {
    |Of(m.Keys + KeysOf(ops), pow2, ix)| + leaked + Emptying(ops, pow2, ix) <= Reach(env, DEFAULT_CAPACITY_POW2)
  }

  ghost function Of(keys: set<Pubkey>, pow2: nat, ix: nat): (r: set<Pubkey>)
    requires pow2 <= 64
  {
    set k | k in keys && BucketIx(k, pow2) == ix
  }

  lemma ApplyKeys<T>(m: map<Pubkey, Value<T>>, op: Op<T>, reply: Reply<T>)
    ensures Apply(m, op, reply).Keys <= m.Keys + {op.key}
  {
  }

  lemma {:induction false} ApplyAllKeys<T>(m: map<Pubkey, Value<T>>, ops: seq<Op<T>>, replies: seq<Reply<T>>)
    requires |replies| == |ops|
    ensures ApplyAll(m, ops, replies).Keys <= m.Keys + KeysOf(ops)
    decreases |ops|
  {
    if |ops| > 0 {
      var last := |ops| - 1;
      ApplyAllKeys(m, ops[..last], replies[..last]);
      ApplyKeys(ApplyAll(m, ops[..last], replies[..last]), ops[last], replies[last]);
      hide Apply;
      assert KeysOf(ops) == KeysOf(ops[..last]) + {ops[last].key};
    }
  }

  lemma {:induction false} LeakingIsEmptying<T(!new)>(m: map<Pubkey, Value<T>>, ops: seq<Op<T>>, replies: seq<Reply<T>>, pow2: nat, ix: nat)
    requires |replies| == |ops| && pow2 <= 64
    ensures Leaking(m, ops, replies, pow2, ix) <= Emptying(ops, pow2, ix)
    decreases |ops|
  {
    if |ops| > 0 {
      var last := |ops| - 1;
      LeakingIsEmptying(m, ops[..last], replies[..last], pow2, ix);
      OpLeaksIsMayEmpty(ApplyAll(m, ops[..last], replies[..last]), ops[last], replies[last]);
      hide OpLeaks, MayEmpty, BucketIx;
    }
  }

  lemma OpLeaksIsMayEmpty<T(!new)>(m: map<Pubkey, Value<T>>, op: Op<T>, reply: Reply<T>)
    ensures OpLeaks(m, op, reply) ==> MayEmpty(op)
  {
  }

  lemma {:induction false} EmptyingGrows<T(!new)>(ops: seq<Op<T>>, i: nat, pow2: nat, ix: nat)
    requires i <= |ops| && pow2 <= 64
    ensures Emptying(ops[..i], pow2, ix) <= Emptying(ops, pow2, ix)
    decreases |ops|
  {
    hide MayEmpty, BucketIx;
    if i < |ops| {
      EmptyingGrows(ops[..|ops| - 1], i, pow2, ix);
      assert ops[..|ops| - 1][..i] == ops[..i];
    } else {
      assert ops[..i] == ops;
    }
  }

  lemma KeysOfGrows<T>(ops: seq<Op<T>>, i: nat)
    requires i < |ops|
    ensures KeysOf(ops[..i]) <= KeysOf(ops) && ops[i].key in KeysOf(ops)
  {
  }

  lemma PartBelow<T>(m: map<Pubkey, Value<T>>, keys: set<Pubkey>, key: Pubkey, pow2: nat)
    requires m.Keys <= keys && key in keys && pow2 <= 64
    ensures var ix := BucketIx(key, pow2); |Part(m, pow2, ix) - {key}| < |Of(keys, pow2, ix)|
  {
    hide BucketIx;
    var ix := BucketIx(key, pow2);
    var rest := Part(m, pow2, ix) - {key};
    SubsetSize(rest.Keys, Of(keys, pow2, ix) - {key});
    assert |rest| == |rest.Keys|;
  }

  /** In a small run every operation finds few keys and leaked cells in its bucket. */
  lemma SmallIsCalm<T(!new)>(env: Env, m: map<Pubkey, Value<T>>, leaked: nat, ops: seq<Op<T>>, replies: seq<Reply<T>>, pow2: nat)
    requires |replies| < |ops| && pow2 <= 64
    requires Small(env, m, leaked, ops, pow2, BucketIx(ops[|replies|].key, pow2))
    ensures var i := |replies|; var key := ops[i].key; var ix := BucketIx(key, pow2);
            Calm(env, Part(ApplyAll(m, ops[..i], replies), pow2, ix), leaked + Leaking(m, ops[..i], replies, pow2, ix), key)
  {
    hide BucketIx, Reach, MayEmpty, OpLeaks, Apply, ApplyAll, Leaking, Emptying, KeysOf, Of, Part;
    var i, key := |replies|, ops[|replies|].key;
    var ix := BucketIx(key, pow2);
    ApplyAllKeys(m, ops[..i], replies);
    LeakingIsEmptying(m, ops[..i], replies, pow2, ix);
    EmptyingGrows(ops, i, pow2, ix);
    KeysOfGrows(ops, i);
    PartBelow(ApplyAll(m, ops[..i], replies), m.Keys + KeysOf(ops), key, pow2);
  }

  // ---------------------------------------------------------------------------
  // Runs of a bucket and of a map

  /**
    What a run has done to a plain map: the operations up to `done`, each with the reply of the
    plain map, and of the next one, if there is one, what an operation that gives up does.
   */
  ghost predicate RunOf<T>(m: map<Pubkey, Value<T>>, ops: seq<Op<T>>, done: nat, replies: seq<Reply<T>>, m': map<Pubkey, Value<T>>) {
    && done == |replies| <= |ops|
    && AllAnswer(m, ops[..done], replies)
    && var reached := ApplyAll(m, ops[..done], replies);
       if done == |ops| then m' == reached else Partly(reached, m', ops[done])
  }

  lemma RunStart<T>(m: map<Pubkey, Value<T>>, ops: seq<Op<T>>, pow2: nat, ix: nat)
    requires pow2 <= 64
    ensures ApplyAll(m, ops[..0], []) == m && AllAnswer(m, ops[..0], []) && Leaking(m, ops[..0], [], pow2, ix) == 0
    ensures DueAfter(ops[..0], [], pow2, ix) == None
  {
  }

  lemma NothingDue<T>(api: BucketApi<T>)
    requires api.Valid()
    ensures Ready(api, None) && Modest(None)
  {
  }

  /** With a single bucket every key is routed to it. */
  lemma WholePart<T>(m: map<Pubkey, Value<T>>)
    ensures Part(m, 0, 0) == m
  {
  }

  /**
    Any run of operations on one bucket, with attempts, reads and read-locked resizes in any order:
    the bucket holds and replies what a plain map does, the leaked cells are as many as the
    operations that leak, and a run that ends early does so for the stated reason. A grow for the
    error of the last write, with only reads in between, never panics. A small run ends early only
    at some other grow.
   */
  method RunBucket<T(!new)>(api: BucketApi<T>, ops: seq<Op<T>>) returns (done: nat, replies: seq<Reply<T>>)
    requires api.Valid()
    modifies api.repr
    ensures api.Valid() && fresh(api.repr - old(api.repr))
    ensures RunOf(old(api.contents), ops, done, replies, api.contents)
    ensures done < |ops| ==>
              Blocked(api, ApplyAll(old(api.contents), ops[..done], replies), ops[done], DueAfter(ops[..done], replies, 0, 0))
    ensures 0 < done == |ops| ==> Aftermath(api, ops[done - 1], replies[done - 1])
    ensures api.leaked == old(api.leaked) + Leaking(old(api.contents), ops[..done], replies, 0, 0)
    ensures Small(api.env, old(api.contents), old(api.leaked), ops, 0, 0) && done < |ops| ==>
              ops[done].Grow? && DueAfter(ops[..done], replies, 0, 0) != Some(ops[done].error)
  {
    hide BucketApi.Valid, Apply, Answers, AllAnswer, OpLeaks, ApplyAll, Leaking, Small, Calm, Partly, Blocked, BucketApi.Stuck, Part;
    hide Aftermath, Ready, NextDue, DueAfter, Certain, Hopeless, Modest;
    ghost var m, leaked := api.contents, api.leaked;
    done, replies := 0, [];
    RunStart(m, ops, 0, 0);
    NothingDue(api);
    while done < |ops|
      invariant 0 <= done == |replies| <= |ops| && api.Valid() && fresh(api.repr - old(api.repr))
      invariant api.contents == ApplyAll(m, ops[..done], replies) && AllAnswer(m, ops[..done], replies)
      invariant api.leaked == leaked + Leaking(m, ops[..done], replies, 0, 0)
      invariant done > 0 ==> Aftermath(api, ops[done - 1], replies[done - 1])
      invariant Ready(api, DueAfter(ops[..done], replies, 0, 0))
      invariant Small(api.env, m, leaked, ops, 0, 0) ==> Modest(DueAfter(ops[..done], replies, 0, 0))
    {
      WholePart(api.contents);
      if Small(api.env, m, leaked, ops, 0, 0) {
        SmallIsCalm(api.env, m, leaked, ops, replies, 0);
      }
      ghost var due := DueAfter(ops[..done], replies, 0, 0);
      var ok, reply := BucketStep(api, ops[done], due);
      if !ok {
        return;
      }
      DueNext(ops, replies, reply, 0, 0);
      RunNext(m, ops, replies, reply, 0, 0);
      done, replies := done + 1, replies + [reply];
    }
    assert ops[..|ops|] == ops;
  }

  /** An operation depends on and changes nothing but its own key. */
  lemma ApplyLocal<T>(m: map<Pubkey, Value<T>>, part: map<Pubkey, Value<T>>, op: Op<T>, reply: Reply<T>)
    requires Lookup(m, op.key) == Lookup(part, op.key)
    ensures Apply(m, op, reply) - {op.key} == m - {op.key} && Apply(part, op, reply) - {op.key} == part - {op.key}
    ensures Lookup(Apply(m, op, reply), op.key) == Lookup(Apply(part, op, reply), op.key)
    ensures Answers(m, op, reply) <==> Answers(part, op, reply)
    ensures OpLeaks(m, op, reply) <==> OpLeaks(part, op, reply)
  {
  }

  lemma PartlyLocal<T>(m: map<Pubkey, Value<T>>, m': map<Pubkey, Value<T>>, part: map<Pubkey, Value<T>>,
                       part': map<Pubkey, Value<T>>, op: Op<T>)
    requires Lookup(m, op.key) == Lookup(part, op.key) && m' - {op.key} == m - {op.key}
    requires Lookup(m', op.key) == Lookup(part', op.key) && Partly(part, part', op)
    ensures Partly(m, m', op)
  {
    hide Touched;
    match op
    case Insert(key, _, refCount) => TouchedMerged(m, m', part, part', key, refCount);
    case Store(key, _, refCount) => TouchedMerged(m, m', part, part', key, refCount);
    case Update(key, updatefn) => TouchedMerged(m, m', part, part', key, updatefn(Lookup(m, key)).value.refCount);
    case _ => SameAt(m, m', op.key);
  }

  lemma BlockedLocal<T>(api: BucketApi<T>, m: map<Pubkey, Value<T>>, part: map<Pubkey, Value<T>>, op: Op<T>, due: Option<BucketMapError>)
    requires api.Valid() && Lookup(m, op.key) == Lookup(part, op.key)
    ensures Blocked(api, m, op, due) <==> Blocked(api, part, op, due)
  {
    hide BucketApi.Valid, BucketApi.Stuck, BucketApi.GrowStuck, BucketApi.GrowSafe;
  }

  lemma PartlyElsewhere<T>(m: map<Pubkey, Value<T>>, m': map<Pubkey, Value<T>>, op: Op<T>)
    requires Partly(m, m', op)
    ensures m' - {op.key} == m - {op.key}
  {
  }

  /** Counts with one of them one higher, if `more`. */
  ghost function Bumped(counts: seq<nat>, ix: nat, more: bool): (r: seq<nat>)
    requires ix < |counts|
  {
    counts[ix := counts[ix] + if more then 1 else 0]
  }

  lemma BumpedTo(counts: seq<nat>, ix: nat, more: bool, n: nat)
    requires ix < |counts| && n == counts[ix] + if more then 1 else 0
    ensures Bumped(counts, ix, more) == counts[ix := n]
  {
  }

  lemma NotBumped(counts: seq<nat>, ix: nat)
    requires ix < |counts|
    ensures Bumped(counts, ix, false) == counts
  {
  }

  /** What is due at each bucket can be grown for without a panic. */
  ghost predicate AllReady<T>(store: BucketMap<T>, dues: seq<Option<BucketMapError>>)
    requires store.Valid()
    reads store.buckets, store.Repr()
  {
    |dues| == |store.buckets| && forall ix: nat :: ix < |dues| ==> Ready(store.buckets[ix], dues[ix])
  }

  ghost function DueAt(dues: seq<Option<BucketMapError>>, pow2: nat, key: Pubkey): (r: Option<BucketMapError>)
    requires pow2 < 64 && |dues| == Pow2(pow2)
  {
    BucketIxInRange(key, pow2);
    dues[BucketIx(key, pow2)]
  }

  /** What is due at each bucket after one more operation. */
  ghost function Settled<T>(dues: seq<Option<BucketMapError>>, pow2: nat, op: Op<T>, reply: Reply<T>)
    : (r: seq<Option<BucketMapError>>)
    requires pow2 < 64 && |dues| == Pow2(pow2)
    ensures |r| == |dues|
  {
    BucketIxInRange(op.key, pow2);
    dues[BucketIx(op.key, pow2) := NextDue(DueAt(dues, pow2, op.key), op, reply)]
  }

  lemma SettledReady<T>(store: BucketMap<T>, dues: seq<Option<BucketMapError>>, op: Op<T>, reply: Reply<T>)
    requires store.Valid() && |dues| == |store.buckets| && BucketIx(op.key, store.maxBucketsPow2) < |dues|
    requires var ix := BucketIx(op.key, store.maxBucketsPow2); Ready(store.buckets[ix], NextDue(dues[ix], op, reply))
    requires forall j: nat :: j < |dues| && j != BucketIx(op.key, store.maxBucketsPow2) ==> Ready(store.buckets[j], dues[j])
    ensures AllReady(store, Settled(dues, store.maxBucketsPow2, op, reply))
  {
    hide BucketApi.Valid, BucketIx, Ready, NextDue;
  }

  ghost predicate CertainAt<T>(store: BucketMap<T>, op: Op<T>)
    requires store.Valid()
    reads store.buckets, store.Repr()
  {
    Certain(store.GetBucket(op.key), op)
  }

  ghost predicate HopelessAt<T>(store: BucketMap<T>, op: Op<T>)
    requires store.Valid()
    reads store.buckets, store.Repr()
  {
    Hopeless(store.GetBucket(op.key), op)
  }

  ghost predicate AftermathAt<T>(store: BucketMap<T>, op: Op<T>, reply: Reply<T>)
    requires store.Valid()
    reads store.Repr()
  {
    Aftermath(store.GetBucket(op.key), op, reply)
  }

  /** One operation on the map is the operation on the bucket that its key is routed to. */
  method MapStep<T>(store: BucketMap<T>, op: Op<T>, ghost dues: seq<Option<BucketMapError>>) returns (ok: bool, reply: Reply<T>)
    requires store.Valid() && AllReady(store, dues)
    modifies store.Repr()
    ensures store.Valid() && fresh(store.Repr() - old(store.Repr()))
    ensures ok ==> store.Contents() == Apply(old(store.Contents()), op, reply) && Answers(old(store.Contents()), op, reply)
    ensures !ok ==> Partly(old(store.Contents()), store.Contents(), op)
                    && Blocked(store.GetBucket(op.key), old(store.Contents()), op, DueAt(dues, store.maxBucketsPow2, op.key))
    ensures ok ==> AftermathAt(store, op, reply) && AllReady(store, Settled(dues, store.maxBucketsPow2, op, reply))
    ensures var ix := BucketIx(op.key, store.maxBucketsPow2);
            && ix < |store.buckets|
            && store.Leaked() == Bumped(old(store.Leaked()), ix, ok && OpLeaks(old(store.Contents()), op, reply))
    ensures (old(CertainAt(store, op)) ==> ok) && (old(HopelessAt(store, op)) ==> !ok)
    ensures var due := DueAt(dues, store.maxBucketsPow2, op.key);
            old(store.CalmAt(op.key)) && Modest(due) ==>
              (ok || (op.Grow? && due != Some(op.error))) && (ok ==> Modest(NextDue(due, op, reply)))
  {
    hide BucketApi.Valid, BucketIx, Apply, Answers, OpLeaks, Partly, Calm, BucketApi.Stuck, Blocked, Aftermath;
    hide Ready, NextDue, Certain, Hopeless, Modest;
    BucketIxInRange(op.key, store.maxBucketsPow2);
    PartIs(store.Parts(), store.maxBucketsPow2, BucketIx(op.key, store.maxBucketsPow2));
    MergedAt(store.Parts(), store.maxBucketsPow2, op.key);
    var api := store.GetBucket(op.key);
    ghost var m, part, leaked := store.Contents(), api.contents, store.Leaked();
    assert leaked[BucketIx(op.key, store.maxBucketsPow2)] == api.leaked;
    assert store.CalmAt(op.key) <==> Calm(api.env, part, api.leaked, op.key);
    hide BucketMap.Leaked, BucketMap.Contents, BucketMap.CalmAt, Bumped;
    ghost var due := dues[BucketIx(op.key, store.maxBucketsPow2)];
    label Start:
    ok, reply := BucketStep(api, op, due);
    forall j: nat | j < |dues| && j != BucketIx(op.key, store.maxBucketsPow2)
      ensures store.buckets[j].Valid() && Ready(store.buckets[j], dues[j])
    {
      assert old@Start(store.buckets[j].Valid() && Ready(store.buckets[j], dues[j]));
    }
    hide AllReady, Settled, DueAt;
    ApplyLocal(m, part, op, reply);
    BumpedTo(leaked, BucketIx(op.key, store.maxBucketsPow2), ok && OpLeaks(m, op, reply), api.leaked);
    if ok {
      store.OneBucketChanged(op.key);
      SameAt(Apply(m, op, reply), store.Contents(), op.key);
      SettledReady(store, dues, op, reply);
    } else {
      PartlyElsewhere(part, api.contents, op);
      store.OneBucketChanged(op.key);
      PartlyLocal(m, store.Contents(), part, api.contents, op);
      BlockedLocal(api, m, part, op, due);
    }
  }

  /** The leaked cells of every bucket are as many as the operations of a run that leak there. */
  ghost predicate LeaksOf<T>(m: map<Pubkey, Value<T>>, ops: seq<Op<T>>, replies: seq<Reply<T>>, pow2: nat,
                             before: seq<nat>, after: seq<nat>)
    requires |replies| == |ops| && pow2 <= 64
  {
    |after| == |before| && forall ix: nat :: ix < |before| ==> after[ix] == before[ix] + Leaking(m, ops, replies, pow2, ix)
  }

  lemma LeaksNext<T>(m: map<Pubkey, Value<T>>, ops: seq<Op<T>>, replies: seq<Reply<T>>, reply: Reply<T>, pow2: nat,
                     before: seq<nat>, after: seq<nat>)
    requires |replies| < |ops| && pow2 <= 64 && BucketIx(ops[|replies|].key, pow2) < |after|
    requires LeaksOf(m, ops[..|replies|], replies, pow2, before, after)
    ensures var i := |replies|;
            LeaksOf(m, ops[..i + 1], replies + [reply], pow2, before,
                    Bumped(after, BucketIx(ops[i].key, pow2), OpLeaks(ApplyAll(m, ops[..i], replies), ops[i], reply)))
  {
    hide BucketIx, OpLeaks, Leaking, ApplyAll;
    forall ix: nat | ix < |before| {
      RunNext(m, ops, replies, reply, pow2, ix);
    }
  }

  /** What is due at each bucket after a run. */
  ghost function DuesAfter<T>(ops: seq<Op<T>>, replies: seq<Reply<T>>, pow2: nat): (r: seq<Option<BucketMapError>>)
    requires |replies| == |ops| && pow2 <= 64
    ensures |r| == Pow2(pow2)
  {
    seq(Pow2(pow2), ix requires 0 <= ix => DueAfter(ops, replies, pow2, ix))
  }

  lemma DueAtBucket<T>(ops: seq<Op<T>>, replies: seq<Reply<T>>, pow2: nat, key: Pubkey)
    requires |replies| == |ops| && pow2 < 64
    ensures DueAt(DuesAfter(ops, replies, pow2), pow2, key) == DueAfter(ops, replies, pow2, BucketIx(key, pow2))
  {
    hide BucketIx, DueAfter;
    BucketIxInRange(key, pow2);
  }

  lemma DuesNext<T>(ops: seq<Op<T>>, replies: seq<Reply<T>>, reply: Reply<T>, pow2: nat)
    requires |replies| < |ops| && pow2 < 64
    ensures var i := |replies|;
            DuesAfter(ops[..i + 1], replies + [reply], pow2) == Settled(DuesAfter(ops[..i], replies, pow2), pow2, ops[i], reply)
  {
    hide BucketIx, NextDue, DueAfter;
    var i := |replies|;
    var before, after := DuesAfter(ops[..i], replies, pow2), DuesAfter(ops[..i + 1], replies + [reply], pow2);
    forall ix: nat | ix < Pow2(pow2)
      ensures after[ix] == Settled(before, pow2, ops[i], reply)[ix]
    {
      DueNext(ops, replies, reply, pow2, ix);
    }
  }

  ghost predicate AllModest(dues: seq<Option<BucketMapError>>) {
    forall ix: nat :: ix < |dues| ==> Modest(dues[ix])
  }

  lemma StaysModest<T>(dues: seq<Option<BucketMapError>>, pow2: nat, op: Op<T>, reply: Reply<T>)
    requires pow2 < 64 && |dues| == Pow2(pow2) && AllModest(dues)
    ensures Modest(DueAt(dues, pow2, op.key))
    ensures Modest(NextDue(DueAt(dues, pow2, op.key), op, reply)) ==> AllModest(Settled(dues, pow2, op, reply))
  {
    hide BucketIx, NextDue, Modest;
    BucketIxInRange(op.key, pow2);
  }

  /** A run that is small for every bucket. */
  ghost predicate SmallForAll<T(!new)>(env: Env, m: map<Pubkey, Value<T>>, leaked: seq<nat>, ops: seq<Op<T>>, pow2: nat)
    requires pow2 <= 64
  {
    forall ix: nat :: ix < |leaked| ==> Small(env, m, leaked[ix], ops, pow2, ix)
  }

  /**
    Any run of operations on a bucket map, whatever the hash functions, the random choices and the
    resizes in between: the map holds and replies what a plain map does, every bucket has leaked as
    many cells as operations on it leak, and a run that ends early does so for the stated reason. A
    grow for the error of the last write to its bucket, with only reads of that bucket in between,
    never panics. A run that is small for every bucket ends early only at some other grow.
   */
  method RunMap<T(!new)>(store: BucketMap<T>, ops: seq<Op<T>>) returns (done: nat, replies: seq<Reply<T>>)
    requires store.Valid()
    modifies store.Repr()
    ensures store.Valid() && fresh(store.Repr() - old(store.Repr()))
    ensures RunOf(old(store.Contents()), ops, done, replies, store.Contents())
    ensures done < |ops| ==>
              Blocked(store.GetBucket(ops[done].key), ApplyAll(old(store.Contents()), ops[..done], replies), ops[done],
                      DueAfter(ops[..done], replies, store.maxBucketsPow2, BucketIx(ops[done].key, store.maxBucketsPow2)))
    ensures 0 < done == |ops| ==> AftermathAt(store, ops[done - 1], replies[done - 1])
    ensures LeaksOf(old(store.Contents()), ops[..done], replies, store.maxBucketsPow2, old(store.Leaked()), store.Leaked())
    ensures SmallForAll(store.env, old(store.Contents()), old(store.Leaked()), ops, store.maxBucketsPow2) && done < |ops| ==>
              var pow2 := store.maxBucketsPow2;
              ops[done].Grow? && DueAfter(ops[..done], replies, pow2, BucketIx(ops[done].key, pow2)) != Some(ops[done].error)
  {
    hide BucketMap.Valid, BucketMap.Contents, BucketMap.Repr, BucketMap.Leaked, BucketIx, Apply, Answers, AllAnswer, OpLeaks;
    hide ApplyAll, Leaking, Small, SmallForAll, Partly, Blocked, AftermathAt, Bumped, LeaksOf, Calm;
    hide AllReady, DuesAfter, DueAfter, NextDue, DueAt, Settled, AllModest, Modest, CertainAt, HopelessAt;
    ghost var m, leaked, pow2 := store.Contents(), store.Leaked(), store.maxBucketsPow2;
    done, replies := 0, [];
    MapStart(store, ops);
    ghost var small := SmallForAll(store.env, m, leaked, ops, pow2);
    while done < |ops|
      invariant 0 <= done == |replies| <= |ops| && store.Valid() && fresh(store.Repr() - old(store.Repr()))
      invariant store.Contents() == ApplyAll(m, ops[..done], replies) && AllAnswer(m, ops[..done], replies)
      invariant pow2 < 64 && LeaksOf(m, ops[..done], replies, pow2, leaked, store.Leaked())
      invariant done > 0 ==> AftermathAt(store, ops[done - 1], replies[done - 1])
      invariant AllReady(store, DuesAfter(ops[..done], replies, pow2))
      invariant small ==> AllModest(DuesAfter(ops[..done], replies, pow2))
    {
      ghost var dues := DuesAfter(ops[..done], replies, pow2);
      DueAtBucket(ops[..done], replies, pow2, ops[done].key);
      if small {
        StepIsCalm(store, m, leaked, ops, replies);
        StaysModest(dues, pow2, ops[done], Silence);
      }
      ghost var objects, counts := store.Repr(), store.Leaked();
      label Start:
      var ok, reply := MapStep(store, ops[done], dues);
      forall o | o in store.Repr() && o !in old(store.Repr())
        ensures fresh(o)
      {
        assert o in objects || fresh@Start(o);
      }
      if !ok {
        NotBumped(counts, BucketIx(ops[done].key, pow2));
        return;
      }
      RunNext(m, ops, replies, reply, pow2, 0);
      LeaksNext(m, ops, replies, reply, pow2, leaked, counts);
      DuesNext(ops, replies, reply, pow2);
      if small {
        StaysModest(dues, pow2, ops[done], reply);
      }
      done, replies := done + 1, replies + [reply];
    }
    assert ops[..|ops|] == ops;
  }

  lemma MapStart<T>(store: BucketMap<T>, ops: seq<Op<T>>)
    requires store.Valid()
    ensures store.maxBucketsPow2 < 64
    ensures ApplyAll(store.Contents(), ops[..0], []) == store.Contents() && AllAnswer(store.Contents(), ops[..0], [])
    ensures LeaksOf(store.Contents(), ops[..0], [], store.maxBucketsPow2, store.Leaked(), store.Leaked())
    ensures AllReady(store, DuesAfter(ops[..0], [], store.maxBucketsPow2)) && AllModest(DuesAfter(ops[..0], [], store.maxBucketsPow2))
  {
  }

  lemma StepIsCalm<T(!new)>(store: BucketMap<T>, m: map<Pubkey, Value<T>>, leaked: seq<nat>, ops: seq<Op<T>>, replies: seq<Reply<T>>)
    requires store.Valid() && |replies| < |ops|
    requires SmallForAll(store.env, m, leaked, ops, store.maxBucketsPow2)
    requires store.Contents() == ApplyAll(m, ops[..|replies|], replies)
    requires LeaksOf(m, ops[..|replies|], replies, store.maxBucketsPow2, leaked, store.Leaked())
    ensures store.CalmAt(ops[|replies|].key)
  {
    hide BucketApi.Valid, BucketIx, ApplyAll, Leaking, Small, Calm, BucketMap.Contents, Part;
    var key, pow2 := ops[|replies|].key, store.maxBucketsPow2;
    BucketIxInRange(key, pow2);
    SmallIsCalm(store.env, m, leaked[BucketIx(key, pow2)], ops, replies, pow2);
  }
}
