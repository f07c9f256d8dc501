/** A log's transactions judged and applied one after another, whatever a view
    and a record are. */
module Runs {
  /** One transaction's records and the counter it leaves. */
  datatype Transaction<R> = Transaction(records: seq<R>, next: nat)

  /** The view a whole log leaves. */
  ghost function Fold<V, T>(next: (V, T) -> V, v: V, log: seq<T>): V {
    if log == [] then v else next(Fold(next, v, log[..|log| - 1]), log[|log| - 1])
  }

  /** Every transaction is accepted in the view those before it leave. */
  ghost predicate AllAccepted<V, T>(next: (V, T) -> V, ok: (V, T) -> bool, v: V, log: seq<T>) {
    log == []
    || (AllAccepted(next, ok, v, log[..|log| - 1]) && ok(Fold(next, v, log[..|log| - 1]), log[|log| - 1]))
  }

  lemma FoldEnds<V, T>(next: (V, T) -> V, ok: (V, T) -> bool, v: V, log: seq<T>)
    ensures AllAccepted(next, ok, v, log[..0]) && Fold(next, v, log[..0]) == v && log[..|log|] == log
  {
  }

  lemma FoldStep<V, T>(next: (V, T) -> V, ok: (V, T) -> bool, v: V, log: seq<T>, i: nat)
    requires i < |log|
    ensures Fold(next, v, log[..i + 1]) == next(Fold(next, v, log[..i]), log[i])
    ensures AllAccepted(next, ok, v, log[..i + 1]) <==> AllAccepted(next, ok, v, log[..i]) && ok(Fold(next, v, log[..i]), log[i])
  {
    assert log[..i + 1][..i] == log[..i];
  }

  lemma {:induction false} PrefixAccepted<V, T>(next: (V, T) -> V, ok: (V, T) -> bool, v: V, log: seq<T>, i: nat)
    requires AllAccepted(next, ok, v, log) && i <= |log|
    ensures AllAccepted(next, ok, v, log[..i])
    decreases |log|
  {
    hide Fold;
    if i == |log| {
      assert log[..i] == log;
    } else {
      assert log[..|log| - 1][..i] == log[..i];
      PrefixAccepted(next, ok, v, log[..|log| - 1], i);
    }
  }

  /** One refused transaction refuses the log. */
  lemma NotAll<V, T>(next: (V, T) -> V, ok: (V, T) -> bool, v: V, log: seq<T>, i: nat)
    requires i < |log| && !ok(Fold(next, v, log[..i]), log[i])
    ensures !AllAccepted(next, ok, v, log)
  {
    FoldStep(next, ok, v, log, i);
    if AllAccepted(next, ok, v, log) {
      PrefixAccepted(next, ok, v, log, i + 1);
    }
  }

  /** The views along an accepted log. */
  ghost function Views<V, T>(next: (V, T) -> V, v: V, log: seq<T>): seq<V> {
    seq(|log| + 1, i requires 0 <= i <= |log| => Fold(next, v, log[..i]))
  }

  ghost predicate Steps<V, T>(next: (V, T) -> V, ok: (V, T) -> bool, views: seq<V>, log: seq<T>) {
    && |views| == |log| + 1
    && forall i :: 0 <= i < |log| ==> ok(views[i], log[i]) && views[i + 1] == next(views[i], log[i])
  }

  lemma FoldSteps<V, T>(next: (V, T) -> V, ok: (V, T) -> bool, v: V, log: seq<T>)
    requires AllAccepted(next, ok, v, log)
    ensures Steps(next, ok, Views(next, v, log), log)
  {
    hide Fold, AllAccepted;
    forall i | 0 <= i < |log|
      ensures ok(Fold(next, v, log[..i]), log[i]) && Fold(next, v, log[..i + 1]) == next(Fold(next, v, log[..i]), log[i])
    {
      FoldStep(next, ok, v, log, i);
      PrefixAccepted(next, ok, v, log, i + 1);
    }
  }

  /** The counter before a log's transaction. */
  function CounterAt<R>(counter: nat, log: seq<Transaction<R>>, i: nat): nat
    requires i <= |log|
  {
    if i == 0 then counter else log[i - 1].next
  }

  /** Counters never fall: what opening a log has already checked. */
  predicate Rising<R>(counter: nat, log: seq<Transaction<R>>) {
    forall i: nat :: i < |log| ==> CounterAt(counter, log, i) <= log[i].next
  }

  lemma RisingAt<R>(counter: nat, log: seq<Transaction<R>>, i: nat)
    requires Rising(counter, log) && i < |log|
    ensures CounterAt(counter, log, i) <= log[i].next && CounterAt(counter, log, i + 1) == log[i].next
  {
  }

  lemma CounterNone<R>(counter: nat, log: seq<Transaction<R>>)
    ensures CounterAt(counter, log, 0) == counter
  {
  }
}
