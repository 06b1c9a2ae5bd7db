/** Threads that add to and look into one atomic filter at the same time, one atomic access per step. */
module BloomRuns {
  import opened Bits
  import opened BitVectors
  import opened Blooms

  datatype Task = Adding | Checking

  /** A call in progress: the positions of its item, how many it has accessed, and its result so far. */
  datatype Call = Call(task: Task, positions: seq<nat>, next: nat, result: bool)

  datatype State = State(words: seq<Word>, calls: seq<Call>)

  /** A lookup stops at the first bit that is not set. */
  predicate Finished(c: Call) {
    c.next >= |c.positions| || (c.task.Checking? && !c.result)
  }

  predicate Started(c: Call) {
    c.next == 0 && (c.result <==> c.task.Checking?)
  }

  ghost predicate Ok(s: State, n: nat) {
    Clean(s.words, n) && forall i :: 0 <= i < |s.calls| ==> Within(s.calls[i].positions, n)
  }

  predicate Enabled(s: State, i: nat) {
    i < |s.calls| && !Finished(s.calls[i])
  }

  function Target(s: State, i: nat): (p: nat)
    requires Enabled(s, i)
  {
    s.calls[i].positions[s.calls[i].next]
  }

  ghost function View(s: State, n: nat): (bits: seq<bool>)
    requires Ok(s, n)
  {
    Unpack(s.words, n)
  }

  /** Call i makes its next access: a fetch-or when it adds, a load when it looks. */
  ghost function Step(s: State, i: nat, n: nat): (r: State)
    requires Ok(s, n) && Enabled(s, i)
  {
    var c, p := s.calls[i], Target(s, i);
    var found := Meets(s.words[p / 64], Mask(p % 64));
    if c.task.Adding?
    then State(OrAt(s.words, p), s.calls[i := c.(next := c.next + 1, result := c.result || !found)])
    else State(s.words, s.calls[i := c.(next := c.next + 1, result := found)])
  }

  /** On the bits: an add sets its target; both kinds find the bit as it was. */
  lemma StepView(s: State, i: nat, n: nat)
    requires Ok(s, n) && Enabled(s, i)
    ensures var c, p, r := s.calls[i], Target(s, i), Step(s, i, n);
            && Ok(r, n) && p < n
            && View(r, n) == (if c.task.Adding? then View(s, n)[p := true] else View(s, n))
            && r.calls == s.calls[i := c.(next := c.next + 1,
                                          result := if c.task.Adding? then c.result || !View(s, n)[p] else View(s, n)[p])]
  {
    hide Clean, Meets, Mask, OrAt;
    FetchOrView(s.words, n, Target(s, i));
  }

  // ---------------------------------------------------------------------------
  // What holds between an earlier and a later state of a run

  ghost predicate Fixed(s: State, r: State) {
    && |s.calls| == |r.calls|
    && (forall i :: 0 <= i < |s.calls| ==> s.calls[i].task == r.calls[i].task
                                           && s.calls[i].positions == r.calls[i].positions
                                           && s.calls[i].next <= r.calls[i].next)
  }

  /** Call i accessed the position q between the two states. */
  ghost predicate Accessed(s: State, r: State, i: nat, q: nat)
    requires Fixed(s, r) && i < |s.calls|
  {
    exists m :: s.calls[i].next <= m < r.calls[i].next && m < |s.calls[i].positions| && s.calls[i].positions[m] == q
  }

  /** No bit is cleared, and the bits set in between are exactly those that adds accessed. */
  ghost predicate Traced(s: State, r: State, n: nat)
    requires Ok(s, n) && Ok(r, n) && Fixed(s, r)
  {
    forall q :: 0 <= q < n ==> (View(r, n)[q] <==> View(s, n)[q] || AddedBy(s, r, q))
  }

  ghost predicate AddedBy(s: State, r: State, q: nat)
    requires Fixed(s, r)
  {
    exists i :: 0 <= i < |s.calls| && s.calls[i].task.Adding? && Accessed(s, r, i, q)
  }

  /** What a lookup has found: only bits that are set now, and every bit that was set before. */
  ghost predicate Looked(s: State, r: State, n: nat, i: nat)
    requires Ok(s, n) && Ok(r, n) && Fixed(s, r) && i < |s.calls|
  {
    s.calls[i].task.Checking? && s.calls[i].result ==>
      && (r.calls[i].result ==> forall q :: 0 <= q < n && Accessed(s, r, i, q) ==> View(r, n)[q])
      && (Holds(View(s, n), s.calls[i].positions) ==> r.calls[i].result)
  }

  /** An add reports something new only if its item was not contained. */
  ghost predicate Reported(s: State, r: State, n: nat, i: nat)
    requires Ok(s, n) && Ok(r, n) && Fixed(s, r) && i < |s.calls|
  {
    s.calls[i].task.Adding? && r.calls[i].result ==> s.calls[i].result || !Holds(View(s, n), s.calls[i].positions)
  }

  ghost predicate Follows(s: State, r: State, n: nat) {
    && Ok(s, n) && Ok(r, n) && Fixed(s, r)
    && Traced(s, r, n)
    && (forall i: nat :: i < |s.calls| ==> Looked(s, r, n, i) && Reported(s, r, n, i))
  }

  // ---------------------------------------------------------------------------
  // Every step keeps it

  lemma StepFixed(s: State, r: State, i: nat, n: nat)
    requires Ok(r, n) && Fixed(s, r) && Enabled(r, i)
    ensures Fixed(s, Step(r, i, n)) && Fixed(r, Step(r, i, n))
  {
  }

  /** After a step of call i, what was accessed is what was before and the target. */
  lemma StepAccessed(s: State, r: State, i: nat, n: nat, j: nat, q: nat)
    requires Ok(r, n) && Fixed(s, r) && Enabled(r, i) && j < |s.calls|
    requires Fixed(s, Step(r, i, n))
    ensures Accessed(s, Step(r, i, n), j, q) <==> Accessed(s, r, j, q) || (j == i && q == Target(r, i))
  {
  }

  lemma StepTraced(s: State, r: State, i: nat, n: nat)
    requires Ok(s, n) && Ok(r, n) && Fixed(s, r) && Traced(s, r, n) && Enabled(r, i)
    ensures var t := Step(r, i, n); Ok(t, n) && Fixed(s, t) && Traced(s, t, n)
  {
    var t := Step(r, i, n);
    StepView(r, i, n);
    StepFixed(s, r, i, n);
    hide Ok, Step, Accessed, Fixed;
    forall q | 0 <= q < n ensures View(t, n)[q] <==> View(s, n)[q] || AddedBy(s, t, q) {
      StepAddedBy(s, r, i, n, q);
    }
  }

  lemma StepAddedBy(s: State, r: State, i: nat, n: nat, q: nat)
    requires Ok(r, n) && Fixed(s, r) && Enabled(r, i) && Fixed(s, Step(r, i, n))
    ensures AddedBy(s, Step(r, i, n), q) <==> AddedBy(s, r, q) || (r.calls[i].task.Adding? && q == Target(r, i))
  {
  }

  lemma StepLooked(s: State, r: State, i: nat, n: nat, j: nat)
    requires Ok(s, n) && Ok(r, n) && Fixed(s, r) && Traced(s, r, n) && Enabled(r, i)
    requires j < |s.calls| && Looked(s, r, n, j)
    requires Ok(Step(r, i, n), n) && Fixed(s, Step(r, i, n))
    ensures Looked(s, Step(r, i, n), n, j)
  {
    var t := Step(r, i, n);
    StepView(r, i, n);
    forall q | 0 <= q < n && Accessed(s, t, j, q) && s.calls[j].task.Checking? && s.calls[j].result && t.calls[j].result
      ensures View(t, n)[q]
    {
      StepAccessed(s, r, i, n, j, q);
    }
    if Holds(View(s, n), s.calls[j].positions) && j == i {
      assert View(s, n)[s.calls[i].positions[r.calls[i].next]];
    }
  }

  lemma StepReported(s: State, r: State, i: nat, n: nat, j: nat)
    requires Ok(s, n) && Ok(r, n) && Fixed(s, r) && Traced(s, r, n) && Enabled(r, i)
    requires j < |s.calls| && Reported(s, r, n, j)
    requires Ok(Step(r, i, n), n) && Fixed(s, Step(r, i, n))
    ensures Reported(s, Step(r, i, n), n, j)
  {
  }

  lemma StepFollows(s: State, r: State, i: nat, n: nat)
    requires Follows(s, r, n) && Enabled(r, i)
    ensures Follows(s, Step(r, i, n), n)
  {
    var t := Step(r, i, n);
    hide Step, Traced, Looked, Reported;
    StepTraced(s, r, i, n);
    forall j: nat | j < |s.calls| ensures Looked(s, t, n, j) && Reported(s, t, n, j) {
      StepLooked(s, r, i, n, j);
      StepReported(s, r, i, n, j);
    }
  }

  lemma FollowsItself(s: State, n: nat)
    requires Ok(s, n)
    ensures Follows(s, s, n)
  {
  }

  // ---------------------------------------------------------------------------
  // Runs

  /** The states of a run under a schedule, which says whose access comes next. */
  ghost predicate IsRun(states: seq<State>, schedule: seq<nat>, n: nat) {
    && |states| == |schedule| + 1
    && Ok(states[0], n)
    && (forall k :: 0 <= k < |schedule| ==>
          Ok(states[k], n) && Enabled(states[k], schedule[k]) && states[k + 1] == Step(states[k], schedule[k], n))
  }

  /** Any two states of any run. */
  lemma {:induction false} RunFollows(states: seq<State>, schedule: seq<nat>, n: nat, a: nat, b: nat)
    requires IsRun(states, schedule, n) && a <= b < |states|
    ensures Follows(states[a], states[b], n)
    decreases b
  {
    hide Follows, Step;
    if a < b {
      RunFollows(states, schedule, n, a, b - 1);
      StepFollows(states[a], states[b - 1], schedule[b - 1], n);
    } else {
      if a > 0 {
        StepView(states[a - 1], schedule[a - 1], n);
      }
      FollowsItself(states[a], n);
    }
  }

  /** Whether every call of a state is at its start. */
  predicate AllStarted(s: State) {
    forall i :: 0 <= i < |s.calls| ==> Started(s.calls[i])
  }

  predicate AddsFinished(s: State) {
    forall i :: 0 <= i < |s.calls| && s.calls[i].task.Adding? ==> Finished(s.calls[i])
  }

  /** A finished add has accessed all its positions. */
  lemma FinishedAccessed(s: State, r: State, i: nat, q: nat)
    requires Fixed(s, r) && i < |s.calls| && s.calls[i].next == 0 && r.calls[i].next >= |r.calls[i].positions|
    ensures Accessed(s, r, i, q) <==> q in s.calls[i].positions
  {
  }

  // A finished add is contained from then on, whatever the other calls do

  lemma AddedStays(states: seq<State>, schedule: seq<nat>, n: nat, i: nat, a: nat, b: nat)
    requires IsRun(states, schedule, n) && a <= b < |states| && AllStarted(states[0])
    requires i < |states[a].calls| && states[a].calls[i].task.Adding? && Finished(states[a].calls[i])
    ensures Ok(states[b], n) && Holds(View(states[b], n), states[a].calls[i].positions)
  {
    RunFollows(states, schedule, n, 0, a);
    RunFollows(states, schedule, n, a, b);
    var s, r := states[0], states[a];
    hide IsRun, Accessed;
    forall m | 0 <= m < |r.calls[i].positions| ensures View(states[b], n)[r.calls[i].positions[m]] {
      FinishedAccessed(s, r, i, r.calls[i].positions[m]);
      assert AddedBy(s, r, r.calls[i].positions[m]);
    }
  }

  /**
    A lookup that runs from one state to another: it finds an item that was contained when it
    started, and an item it finds is contained when it ends.
   */
  lemma LookupBetween(states: seq<State>, schedule: seq<nat>, n: nat, j: nat, a: nat, b: nat)
    requires IsRun(states, schedule, n) && a <= b < |states| && j < |states[a].calls| && j < |states[b].calls|
    requires states[a].calls[j].task.Checking? && Started(states[a].calls[j]) && Finished(states[b].calls[j])
    ensures Ok(states[a], n) && Ok(states[b], n)
    ensures Holds(View(states[a], n), states[a].calls[j].positions) ==> states[b].calls[j].result
    ensures states[b].calls[j].result ==> Holds(View(states[b], n), states[a].calls[j].positions)
  {
    RunFollows(states, schedule, n, a, b);
    var s, r := states[a], states[b];
    hide IsRun;
    assert Looked(s, r, n, j);
    if r.calls[j].result {
      hide Accessed;
      forall m | 0 <= m < |s.calls[j].positions| ensures View(r, n)[s.calls[j].positions[m]] {
        FinishedAccessed(s, r, j, s.calls[j].positions[m]);
      }
    }
  }

  /** No false negatives: a lookup that starts after an add of the same item has finished finds it. */
  lemma AddThenLookup(states: seq<State>, schedule: seq<nat>, n: nat, i: nat, j: nat, a: nat, b: nat)
    requires IsRun(states, schedule, n) && a <= b < |states| && AllStarted(states[0])
    requires i < |states[a].calls| && j < |states[a].calls| && j < |states[b].calls|
    requires states[a].calls[i].task.Adding? && Finished(states[a].calls[i])
    requires states[a].calls[j].task.Checking? && Started(states[a].calls[j]) && Finished(states[b].calls[j])
    requires states[a].calls[i].positions == states[a].calls[j].positions
    ensures states[b].calls[j].result
  {
    AddedStays(states, schedule, n, i, a, a);
    LookupBetween(states, schedule, n, j, a, b);
  }

  // ---------------------------------------------------------------------------
  // The outcome is that of the sequential filter, in any order

  /** Adds one after the other, in the given order of calls. */
  ghost function Sequential(bits: seq<bool>, calls: seq<Call>, order: seq<nat>): (r: seq<bool>)
    requires forall k :: 0 <= k < |order| ==> order[k] < |calls| && Within(calls[order[k]].positions, |bits|)
    ensures |r| == |bits|
    decreases |order|
  {
    if |order| == 0 then bits
    else SetAll(Sequential(bits, calls, order[..|order| - 1]), calls[order[|order| - 1]].positions)
  }

  /** An order of the adds: it names every add and nothing else. */
  ghost predicate OrdersAdds(order: seq<nat>, calls: seq<Call>) {
    && (forall k :: 0 <= k < |order| ==> order[k] < |calls| && calls[order[k]].task.Adding?)
    && (forall i :: 0 <= i < |calls| && calls[i].task.Adding? ==> i in order)
  }

  ghost predicate InOneOf(calls: seq<Call>, order: seq<nat>, q: nat)
    requires forall k :: 0 <= k < |order| ==> order[k] < |calls|
  {
    exists k :: 0 <= k < |order| && q in calls[order[k]].positions
  }

  lemma {:induction false} SequentialBits(bits: seq<bool>, calls: seq<Call>, order: seq<nat>, q: nat)
    requires forall k :: 0 <= k < |order| ==> order[k] < |calls| && Within(calls[order[k]].positions, |bits|)
    requires q < |bits|
    ensures Sequential(bits, calls, order)[q] <==> bits[q] || InOneOf(calls, order, q)
    decreases |order|
  {
    if |order| > 0 {
      var last := |order| - 1;
      SequentialBits(bits, calls, order[..last], q);
      assert InOneOf(calls, order, q) <==> InOneOf(calls, order[..last], q) || q in calls[order[last]].positions by {
        if InOneOf(calls, order[..last], q) {
          var k :| 0 <= k < last && q in calls[order[..last][k]].positions;
          assert q in calls[order[k]].positions;
        }
        if InOneOf(calls, order, q) {
          var k :| 0 <= k < |order| && q in calls[order[k]].positions;
          assert k < last ==> q in calls[order[..last][k]].positions;
        }
      }
    }
  }

  lemma FinishedAdds(s: State, r: State, order: seq<nat>, q: nat)
    requires Fixed(s, r) && AllStarted(s) && AddsFinished(r) && OrdersAdds(order, s.calls)
    ensures AddedBy(s, r, q) <==> InOneOf(s.calls, order, q)
  {
  }

  /** Every interleaving ends in the words of the sequential filter, for every order of the adds. */
  lemma Refines(states: seq<State>, schedule: seq<nat>, n: nat, order: seq<nat>)
    requires IsRun(states, schedule, n) && AllStarted(states[0]) && AddsFinished(states[|states| - 1])
    requires OrdersAdds(order, states[0].calls)
    ensures forall i :: 0 <= i < |states[0].calls| ==> Within(states[0].calls[i].positions, n)
    ensures var bits := Sequential(View(states[0], n), states[0].calls, order);
            var end := states[|states| - 1];
            Ok(end, n) && View(end, n) == bits && end.words == Pack(bits) && CountOnes(end.words) == Count(bits)
  {
    var s, r := states[0], states[|states| - 1];
    RunFollows(states, schedule, n, 0, |schedule|);
    hide IsRun, AllStarted, AddsFinished, Looked, Reported;
    var bits := Sequential(View(s, n), s.calls, order);
    forall q | 0 <= q < n ensures View(r, n)[q] == bits[q] {
      SequentialBits(View(s, n), s.calls, order, q);
      FinishedAdds(s, r, order, q);
    }
    assert View(r, n) == bits;
    PackUnpack(r.words, n);
    OnesAreCount(r.words, n);
  }

  /** From the sequential filter to the atomic one, any concurrent adds, and back: the same adds, one by one. */
  lemma RoundTrip(bits: seq<bool>, states: seq<State>, schedule: seq<nat>, order: seq<nat>)
    requires IsRun(states, schedule, |bits|) && states[0].words == Pack(bits)
    requires AllStarted(states[0]) && AddsFinished(states[|states| - 1]) && OrdersAdds(order, states[0].calls)
    ensures var end := states[|states| - 1];
            && Ok(states[0], |bits|) && Ok(end, |bits|)
            && View(end, |bits|) == Sequential(bits, states[0].calls, order)
            && CountOnes(end.words) == Count(Sequential(bits, states[0].calls, order))
  {
    hide AllStarted, AddsFinished, Pack, Count, CountOnes, Sequential, OrdersAdds;
    UnpackPack(bits);
    Refines(states, schedule, |bits|, order);
  }

  // ---------------------------------------------------------------------------
  // Who set a bit

  /** Step k is an add that finds its target, q, not set. */
  ghost predicate Sets(states: seq<State>, schedule: seq<nat>, n: nat, k: nat, q: nat)
    requires IsRun(states, schedule, n) && k < |schedule| && q < n
  {
    && states[k].calls[schedule[k]].task.Adding?
    && Target(states[k], schedule[k]) == q
    && !View(states[k], n)[q]
  }

  lemma SetsFrom(states: seq<State>, schedule: seq<nat>, n: nat, k: nat, q: nat, b: nat)
    requires IsRun(states, schedule, n) && k < |schedule| && q < n && Sets(states, schedule, n, k, q)
    requires k < b < |states|
    ensures Ok(states[b], n) && View(states[b], n)[q]
  {
    SetsNext(states, schedule, n, k, q);
    RunFollows(states, schedule, n, k + 1, b);
  }

  /** No two steps of a run set the same bit. */
  lemma SetOnce(states: seq<State>, schedule: seq<nat>, n: nat, k: nat, l: nat, q: nat)
    requires IsRun(states, schedule, n) && k < |schedule| && l < |schedule| && q < n
    requires Sets(states, schedule, n, k, q) && Sets(states, schedule, n, l, q)
    ensures k == l
  {
    if k < l {
      SetsFrom(states, schedule, n, k, q, l);
    } else if l < k {
      SetsFrom(states, schedule, n, l, q, k);
    }
  }

  lemma SetsNext(states: seq<State>, schedule: seq<nat>, n: nat, k: nat, q: nat)
    requires IsRun(states, schedule, n) && k < |schedule| && q < n
    ensures Ok(states[k + 1], n)
    ensures View(states[k + 1], n)[q] <==> View(states[k], n)[q] || Sets(states, schedule, n, k, q)
  {
    StepView(states[k], schedule[k], n);
    hide Step, Ok;
  }

  /** A bit that is set at some point of a run and was not set at its start was set by a step. */
  lemma {:induction false} SetBySome(states: seq<State>, schedule: seq<nat>, n: nat, q: nat, b: nat)
    requires IsRun(states, schedule, n) && q < n && b < |states|
    ensures Ok(states[0], n) && Ok(states[b], n)
    ensures View(states[b], n)[q] <==>
            View(states[0], n)[q] || exists k :: 0 <= k < b && Sets(states, schedule, n, k, q)
  {
    if b > 0 {
      SetBySome(states, schedule, n, q, b - 1);
      SetsNext(states, schedule, n, b - 1, q);
      hide IsRun, Ok, Sets;
    }
  }

  /** An add reports true exactly when one of its own steps set a bit. */
  lemma {:induction false} ReportsOwn(states: seq<State>, schedule: seq<nat>, n: nat, i: nat, b: nat)
    requires IsRun(states, schedule, n) && b < |states| && AllStarted(states[0])
    requires i < |states[0].calls| && states[0].calls[i].task.Adding?
    ensures |states[b].calls| == |states[0].calls| && states[b].calls[i].task.Adding?
    ensures states[b].calls[i].result <==>
            exists k, q :: 0 <= k < b && 0 <= q < n && schedule[k] == i && Sets(states, schedule, n, k, q)
  {
    if b > 0 {
      ReportsOwn(states, schedule, n, i, b - 1);
      StepView(states[b - 1], schedule[b - 1], n);
      hide Step, Ok;
      if schedule[b - 1] == i && !View(states[b - 1], n)[Target(states[b - 1], i)] {
        assert Sets(states, schedule, n, b - 1, Target(states[b - 1], i));
      }
    }
  }

  /** An add that reports true added something that was not there when the run started. */
  lemma ReportsNew(states: seq<State>, schedule: seq<nat>, n: nat, i: nat, b: nat)
    requires IsRun(states, schedule, n) && b < |states| && AllStarted(states[0])
    requires i < |states[0].calls| && states[0].calls[i].task.Adding? && i < |states[b].calls| && states[b].calls[i].result
    ensures Ok(states[0], n) && !Holds(View(states[0], n), states[0].calls[i].positions)
  {
    RunFollows(states, schedule, n, 0, b);
    assert Reported(states[0], states[b], n, i);
  }
}
