/** Sharing work among the calling thread and helpers that may fail to start, as
    a state machine over every interleaving of their atomic steps. */
module FanOut {
  import opened Basics

  /** An item until it is taken, and its result once it is done. */
  datatype Slot<I, T> = Slot(item: Option<I>, done: Option<T>)

  /** The calling thread is thread 0 and first starts helpers; a helper that was
      refused, and those after it, never start. */
  datatype Thread<I> =
    | NotStarted
    | Spawning(helper: nat)
    | Ready
    | Claimed(index: nat)
    | Working(index: nat, item: I)
    | Exited
  {
    predicate Has(i: nat) {
      (Claimed? || Working?) && index == i
    }
  }

  /** `claims` is the history of indexes handed out. */
  datatype State<I, T> = State(next: nat, slots: seq<Slot<I, T>>, threads: seq<Thread<I>>, claims: seq<nat>) {
    /** The scope is left once the caller is done and every helper that started. */
    predicate Joined() {
      forall t :: 0 <= t < |threads| ==> threads[t].Exited? || (t > 0 && threads[t].NotStarted?)
    }
  }

  datatype Step = Spawn | SpawnFails | Claim(thread: nat) | Take(thread: nat) | Finish(thread: nat)

  predicate Enabled<I, T>(s: State<I, T>, step: Step) {
    match step
    case Spawn => |s.threads| > 0 && s.threads[0].Spawning? && s.threads[0].helper < |s.threads|
    case SpawnFails => |s.threads| > 0 && s.threads[0].Spawning?
    case Claim(t) => t < |s.threads| && s.threads[t].Ready?
    case Take(t) => t < |s.threads| && s.threads[t].Claimed? && s.threads[t].index < |s.slots|
    case Finish(t) => t < |s.threads| && s.threads[t].Working? && s.threads[t].index < |s.slots|
  }

  function Apply<I, T>(work: I -> T, s: State<I, T>, step: Step): State<I, T>
    requires Enabled(s, step)
  {
    match step
    case Spawn =>
      var h := s.threads[0].helper;
      var caller := if h + 1 < |s.threads| then Spawning(h + 1) else Ready;
      s.(threads := s.threads[h := Ready][0 := caller])
    case SpawnFails => s.(threads := s.threads[0 := Ready])
    case Claim(t) =>
      // One atomic fetch-and-add; past the end there is nothing more to do.
      if s.next < |s.slots| then
        s.(next := s.next + 1, threads := s.threads[t := Claimed(s.next)], claims := s.claims + [s.next])
      else s.(next := s.next + 1, threads := s.threads[t := Exited])
    case Take(t) =>
      var i := s.threads[t].index;
      if s.slots[i].item.Some? then
        s.(slots := s.slots[i := s.slots[i].(item := None)], threads := s.threads[t := Working(i, s.slots[i].item.value)])
      else s.(threads := s.threads[t := Ready])
    case Finish(t) =>
      var i := s.threads[t].index;
      s.(slots := s.slots[i := s.slots[i].(done := Some(work(s.threads[t].item)))], threads := s.threads[t := Ready])
  }

  function Start<I, T>(items: seq<I>, helpers: nat): State<I, T> {
    State(0, seq(|items|, i requires 0 <= i < |items| => Slot(Some(items[i]), None)),
          [Spawning(1)] + seq(helpers, _ => NotStarted), [])
  }

  // ---- what every interleaving keeps ----

  /** One index: not yet claimed, held by a thread, or done with the right result. */
  ghost predicate SlotOk<I, T>(items: seq<I>, work: I -> T, s: State<I, T>, i: nat)
    requires |s.slots| == |items| && i < |items|
  {
    if i >= s.next then s.slots[i] == Slot(Some(items[i]), None)
    else if exists t :: 0 <= t < |s.threads| && s.threads[t].Has(i) then true
    else s.slots[i] == Slot(None, Some(work(items[i])))
  }

  ghost predicate ThreadOk<I, T>(items: seq<I>, s: State<I, T>, t: nat)
    requires |s.slots| == |items| && t < |s.threads|
  {
    match s.threads[t]
    case NotStarted => t > 0
    case Spawning(h) => t == 0 && 1 <= h && forall u :: h <= u < |s.threads| ==> s.threads[u].NotStarted?
    case Ready => true
    case Claimed(i) => i < s.next && i < |items| && s.slots[i] == Slot(Some(items[i]), None)
    case Working(i, item) => i < s.next && i < |items| && item == items[i] && s.slots[i] == Slot(None, None)
    case Exited => s.next >= |items|
  }

  ghost predicate Inv<I, T>(items: seq<I>, work: I -> T, s: State<I, T>) {
    && |s.slots| == |items| && |s.threads| >= 1
    && (forall i: nat :: i < |items| ==> SlotOk(items, work, s, i))
    && (forall t: nat :: t < |s.threads| ==> ThreadOk(items, s, t))
    && Alone(s)
    && |s.claims| == Min(s.next, |items|) && forall i :: 0 <= i < |s.claims| ==> s.claims[i] == i
  }

  /** No two threads have one index. */
  ghost predicate Alone<I, T>(s: State<I, T>) {
    forall t: nat, u: nat, i: nat :: t < u < |s.threads| && s.threads[t].Has(i) ==> !s.threads[u].Has(i)
  }

  lemma StartInv<I, T>(items: seq<I>, work: I -> T, helpers: nat)
    ensures Inv(items, work, Start(items, helpers))
  {
    var s: State<I, T> := Start(items, helpers);
    forall t: nat | t < |s.threads|
      ensures ThreadOk(items, s, t)
    {
    }
    forall i: nat | i < |items|
      ensures SlotOk(items, work, s, i)
    {
    }
  }

  lemma StepInv<I, T>(items: seq<I>, work: I -> T, s: State<I, T>, step: Step)
    requires Inv(items, work, s) && Enabled(s, step)
    ensures Inv(items, work, Apply(work, s, step))
  {
    var r := Apply(work, s, step);
    forall i: nat | i < |items|
      ensures SlotOk(items, work, r, i)
    {
      SlotStep(items, work, s, step, i);
    }
    forall t: nat | t < |s.threads|
      ensures ThreadOk(items, r, t)
    {
      ThreadStep(items, work, s, step, t);
    }
    AloneStep(items, work, s, step);
  }

  lemma SlotStep<I, T>(items: seq<I>, work: I -> T, s: State<I, T>, step: Step, i: nat)
    requires Inv(items, work, s) && Enabled(s, step) && i < |items|
    ensures |Apply(work, s, step).slots| == |items| && SlotOk(items, work, Apply(work, s, step), i)
  {
    var r := Apply(work, s, step);
    assert SlotOk(items, work, s, i);
    if step.Claim? || step.Take? || step.Finish? {
      assert ThreadOk(items, s, step.thread);
    }
    if i < s.next && exists t :: 0 <= t < |s.threads| && s.threads[t].Has(i) {
      var t: nat :| t < |s.threads| && s.threads[t].Has(i);
      assert ThreadOk(items, s, t);
      assert r.threads[t].Has(i) || (step == Finish(t) && r.slots[i] == Slot(None, Some(work(items[i])))) by {
        Kept(items, work, s, step, t, i);
      }
    } else if i == s.next < r.next {
      assert r.threads[step.thread].Has(i);
    }
  }

  /** A thread keeps its index until it finishes it. */
  lemma Kept<I, T>(items: seq<I>, work: I -> T, s: State<I, T>, step: Step, t: nat, i: nat)
    requires Inv(items, work, s) && Enabled(s, step) && t < |s.threads| && s.threads[t].Has(i)
    ensures var r := Apply(work, s, step);
      r.threads[t].Has(i) || (step == Finish(t) && i < |r.slots| && r.slots[i] == Slot(None, Some(work(items[i]))))
  {
    assert ThreadOk(items, s, t);
    if step.Spawn? {
      assert ThreadOk(items, s, 0);
    }
  }

  lemma Apart<I, T>(s: State<I, T>, t: nat, u: nat, i: nat)
    requires Alone(s) && t != u && t < |s.threads| && u < |s.threads| && s.threads[t].Has(i)
    ensures !s.threads[u].Has(i)
  {
  }

  lemma Unclaimed<I, T>(items: seq<I>, work: I -> T, s: State<I, T>)
    requires Inv(items, work, s)
    ensures s.next < |items| ==> s.slots[s.next] == Slot(Some(items[s.next]), None)
  {
    assert s.next < |items| ==> SlotOk(items, work, s, s.next);
  }

  lemma ThreadStep<I, T>(items: seq<I>, work: I -> T, s: State<I, T>, step: Step, t: nat)
    requires Inv(items, work, s) && Enabled(s, step) && t < |s.threads|
    ensures var r := Apply(work, s, step); |r.slots| == |items| && |r.threads| == |s.threads| && ThreadOk(items, r, t)
  {
    hide Alone, SlotOk;
    assert ThreadOk(items, s, t);
    assert ThreadOk(items, s, 0);
    if step.Claim? || step.Take? || step.Finish? {
      assert ThreadOk(items, s, step.thread);
      if !step.Claim? && t != step.thread {
        Apart(s, step.thread, t, s.threads[step.thread].index);
      }
    }
    Unclaimed(items, work, s);
  }

  lemma AloneStep<I, T>(items: seq<I>, work: I -> T, s: State<I, T>, step: Step)
    requires Inv(items, work, s) && Enabled(s, step)
    ensures Alone(Apply(work, s, step))
  {
    var r := Apply(work, s, step);
    forall t: nat, u: nat, i: nat | t < u < |r.threads| && r.threads[t].Has(i)
      ensures !r.threads[u].Has(i)
    {
      assert ThreadOk(items, s, t) && ThreadOk(items, s, u);
      assert s.threads[t].Has(i) ==> !s.threads[u].Has(i);
    }
  }

  /** Runs of any length and any schedule. */
  ghost predicate IsRun<I, T>(work: I -> T, states: seq<State<I, T>>, steps: seq<Step>) {
    && |states| == |steps| + 1
    && forall i :: 0 <= i < |steps| ==> Enabled(states[i], steps[i]) && states[i + 1] == Apply(work, states[i], steps[i])
  }

  lemma {:induction false} RunInv<I, T>(items: seq<I>, work: I -> T, helpers: nat, states: seq<State<I, T>>, steps: seq<Step>, k: nat)
    requires IsRun(work, states, steps) && states[0] == Start(items, helpers) && k < |states|
    ensures Inv(items, work, states[k])
  {
    hide Inv, Enabled, Apply, Start;
    if k == 0 {
      StartInv(items, work, helpers);
    } else {
      RunInv(items, work, helpers, states, steps, k - 1);
      StepInv(items, work, states[k - 1], steps[k - 1]);
    }
  }

  /** The results in the order of the items. */
  function Results<I, T>(items: seq<I>, work: I -> T): seq<T> {
    seq(|items|, i requires 0 <= i < |items| => work(items[i]))
  }

  /** Whatever the schedule, and whichever helpers started: once all threads are
      joined each item was claimed once, in order, and each result is its item's. */
  lemma JoinedIsDone<I, T>(items: seq<I>, work: I -> T, helpers: nat, states: seq<State<I, T>>, steps: seq<Step>)
    requires IsRun(work, states, steps) && states[0] == Start(items, helpers) && states[|steps|].Joined()
    ensures var s := states[|steps|];
      && |s.claims| == |items| && (forall i :: 0 <= i < |items| ==> s.claims[i] == i)
      && |s.slots| == |items| && forall i :: 0 <= i < |items| ==> s.slots[i].done == Some(work(items[i]))
  {
    RunInv(items, work, helpers, states, steps, |steps|);
    InvDone(items, work, states[|steps|]);
  }

  lemma InvDone<I, T>(items: seq<I>, work: I -> T, s: State<I, T>)
    requires Inv(items, work, s) && s.Joined()
    ensures |s.claims| == |items| == |s.slots|
    ensures forall i :: 0 <= i < |items| ==> s.slots[i].done == Some(work(items[i]))
  {
    assert ThreadOk(items, s, 0);
    forall i: nat | i < |items|
      ensures s.slots[i].done == Some(work(items[i]))
    {
      assert SlotOk(items, work, s, i);
    }
  }

  // ---- every schedule ends ----

  function Weight<I>(thread: Thread<I>): nat {
    match thread
    case NotStarted => 3
    case Spawning(_) => 2
    case Ready => 1
    case Claimed(_) => 3
    case Working(_, _) => 2
    case Exited => 0
  }

  function Weights<I>(threads: seq<Thread<I>>): nat {
    if threads == [] then 0 else Weights(threads[..|threads| - 1]) + Weight(threads[|threads| - 1])
  }

  lemma {:induction false} WeightsUpdate<I>(threads: seq<Thread<I>>, t: nat, to: Thread<I>)
    requires t < |threads|
    ensures Weights(threads[t := to]) == Weights(threads) - Weight(threads[t]) + Weight(to)
  {
    var n := |threads| - 1;
    if t < n {
      WeightsUpdate(threads[..n], t, to);
      assert threads[t := to][..n] == threads[..n][t := to];
    } else {
      assert threads[t := to][..n] == threads[..n];
    }
  }

  function Measure<I, T>(s: State<I, T>): nat {
    3 * (|s.slots| - Min(s.next, |s.slots|)) + Weights(s.threads)
  }

  /** Each step leaves less to do. */
  lemma StepShrinks<I, T>(items: seq<I>, work: I -> T, s: State<I, T>, step: Step)
    requires Inv(items, work, s) && Enabled(s, step)
    ensures Measure(Apply(work, s, step)) < Measure(s)
  {
    hide Weights;
    assert ThreadOk(items, s, 0);
    match step
    case Spawn =>
      var h := s.threads[0].helper;
      var caller := if h + 1 < |s.threads| then Spawning(h + 1) else Ready;
      WeightsUpdate(s.threads, h, Ready);
      WeightsUpdate(s.threads[h := Ready], 0, caller);
    case SpawnFails => WeightsUpdate(s.threads, 0, Ready);
    case Claim(t) => WeightsUpdate(s.threads, t, if s.next < |s.slots| then Claimed(s.next) else Exited);
    case Take(t) =>
      assert ThreadOk(items, s, t);
      WeightsUpdate(s.threads, t, Working(s.threads[t].index, items[s.threads[t].index]));
    case Finish(t) => WeightsUpdate(s.threads, t, Ready);
  }

  predicate Moves(step: Step, t: nat) {
    match step
    case Spawn => t == 0
    case SpawnFails => t == 0
    case Claim(u) => u == t
    case Take(u) => u == t
    case Finish(u) => u == t
  }

  /** No thread waits for another: whatever the rest do, one that has started
      and not exited has a step of its own, and a helper can be started or not. */
  lemma NoThreadWaits<I, T>(items: seq<I>, work: I -> T, s: State<I, T>, t: nat) returns (step: Step)
    requires Inv(items, work, s) && t < |s.threads| && !s.threads[t].Exited? && !s.threads[t].NotStarted?
    ensures Enabled(s, step) && Moves(step, t)
    ensures s.threads[t].Spawning? && s.threads[t].helper < |s.threads| ==> Enabled(s, Spawn) && Enabled(s, SpawnFails)
  {
    assert ThreadOk(items, s, t);
    match s.threads[t]
    case Spawning(_) => step := SpawnFails;
    case Ready => step := Claim(t);
    case Claimed(_) => step := Take(t);
    case Working(_, _) => step := Finish(t);
    case _ =>
  }

  /** Until all are joined some thread can always move. */
  lemma SomeStep<I, T>(items: seq<I>, work: I -> T, s: State<I, T>) returns (step: Step)
    requires Inv(items, work, s) && !s.Joined()
    ensures Enabled(s, step)
  {
    var t: nat :| t < |s.threads| && !s.threads[t].Exited? && !(t > 0 && s.threads[t].NotStarted?);
    assert ThreadOk(items, s, t);
    step := NoThreadWaits(items, work, s, t);
  }

  /** Runs the work to its end, taking any enabled step at each turn. */
  method Run<I, T>(items: seq<I>, threads: nat, work: I -> T) returns (results: seq<T>)
    ensures |results| == |items| && forall i :: 0 <= i < |items| ==> results[i] == work(items[i])
  {
    hide Inv, Enabled, Apply, Start, State.Joined, Measure;
    var most := Min(threads, |items|);
    if most <= 1 {
      results := [];
      for i := 0 to |items|
        invariant results == Results(items[..i], work)
      {
        results := results + [work(items[i])];
      }
      assert items[..|items|] == items;
      return;
    }
    var s: State<I, T> := Start(items, most - 1);
    StartInv(items, work, most - 1);
    while !s.Joined()
      invariant Inv(items, work, s)
      decreases Measure(s)
    {
      ghost var some := SomeStep(items, work, s);
      var step: Step :| Enabled(s, step);
      StepInv(items, work, s, step);
      StepShrinks(items, work, s, step);
      s := Apply(work, s, step);
    }
    InvDone(items, work, s);
    results := [];
    for i := 0 to |items|
      invariant results == Results(items[..i], work)
    {
      assert s.slots[i].done == Some(work(items[i]));
      results := results + [s.slots[i].done.value];
    }
    assert items[..|items|] == items;
  }
}
