/** The byte-rate limiter: transfers one at a time, each waiting out the
    allowance of the one before, so that no window of time sees more than the
    rate and one transfer, however long the limiter stood idle. */
module Bulk {
  const U64_MAX: nat := 0xFFFF_FFFF_FFFF_FFFF

  /** The longest time there is; sums saturate here. */
  const LONGEST: real := U64_MAX as real + 0.999999999

  /** A transfer that ended, and when. */
  datatype Done = Done(at: real, bytes: nat)

  function Allowance(bytes: nat, rate: nat): real
    requires rate > 0
  {
    bytes as real / rate as real
  }

  /** At the rate, the allowance is exactly what the bytes take. */
  lemma AllowanceExact(bytes: nat, rate: nat)
    requires rate > 0
    ensures Allowance(bytes, rate) * rate as real == bytes as real
  {
  }

  function SaturatingSum(a: real, b: real): real {
    if a + b > LONGEST then LONGEST else a + b
  }

  function SaturatingDifference(a: real, b: real): real {
    if a > b then a - b else 0.0
  }

  function SaturatingCount(a: nat, b: nat): nat {
    if a + b > U64_MAX then U64_MAX else a + b
  }

  /** Each transfer ends no sooner than its predecessor's allowance is used up. */
  ghost predicate Paced(done: seq<Done>, rate: nat)
    requires rate > 0
  {
    forall i: nat :: i + 1 < |done| ==> Apart(done, rate, i)
  }

  ghost predicate Apart(done: seq<Done>, rate: nat, i: nat)
    requires rate > 0 && i + 1 < |done|
  {
    && done[i].at <= done[i + 1].at
    && SaturatingSum(done[i].at, Allowance(done[i].bytes, rate)) <= done[i + 1].at
  }

  // ---- windows ----

  /** Bytes of the transfers that ended in a closed window. */
  function BytesIn(done: seq<Done>, lo: real, hi: real): nat {
    if done == [] then 0
    else
      var last := done[|done| - 1];
      BytesIn(done[..|done| - 1], lo, hi) + if lo <= last.at <= hi then last.bytes else 0
  }

  lemma PacedFront(done: seq<Done>, rate: nat, n: nat)
    requires rate > 0 && Paced(done, rate) && n <= |done|
    ensures Paced(done[..n], rate)
  {
    forall i: nat | i + 1 < n
      ensures Apart(done[..n], rate, i)
    {
      assert Apart(done, rate, i);
    }
  }

  lemma {:induction false} InOrder(done: seq<Done>, rate: nat, i: nat, j: nat)
    requires rate > 0 && Paced(done, rate) && i <= j < |done|
    ensures done[i].at <= done[j].at
  {
    if i < j {
      InOrder(done, rate, i, j - 1);
      assert Apart(done, rate, j - 1);
    }
  }

  /** Nothing that ended before the window counts in it. */
  lemma {:induction false} NothingBefore(done: seq<Done>, lo: real, hi: real)
    requires forall i :: 0 <= i < |done| ==> done[i].at < lo
    ensures BytesIn(done, lo, hi) == 0
  {
    if done != [] {
      NothingBefore(done[..|done| - 1], lo, hi);
    }
  }

  /** The rate allows this many bytes in this time. */
  ghost predicate Fits(bytes: nat, rate: nat, span: real) {
    bytes as real <= rate as real * span
  }

  /** What ended in the window before one of its transfers fits the rate. */
  lemma {:induction false} BeforeFits(done: seq<Done>, rate: nat, m: nat, lo: real, hi: real)
    requires rate > 0 && Paced(done, rate) && m < |done|
    requires lo <= done[m].at <= hi < LONGEST
    ensures Fits(BytesIn(done[..m], lo, hi), rate, done[m].at - lo)
  {
    hide Fits, Allowance;
    if m == 0 {
      FitsNone(rate, done[0].at - lo);
    } else {
      assert Apart(done, rate, m - 1);
      if done[m - 1].at < lo {
        forall i | 0 <= i < m
          ensures done[i].at < lo
        {
          InOrder(done, rate, i, m - 1);
        }
        NothingBefore(done[..m], lo, hi);
        FitsNone(rate, done[m].at - lo);
      } else {
        BeforeFits(done, rate, m - 1, lo, hi);
        assert done[..m][..m - 1] == done[..m - 1];
        OneAllowance(rate, done[m - 1].bytes, done[m].at - done[m - 1].at);
        FitsJoin(BytesIn(done[..m - 1], lo, hi), done[m - 1].at - lo, done[m - 1].bytes, done[m].at - done[m - 1].at, rate);
      }
    }
  }

  lemma NotNegative(a: real, b: real)
    requires a >= 0.0 && b >= 0.0
    ensures a * b >= 0.0
  {
  }

  lemma Split(r: real, a: real, b: real)
    ensures r * (a + b) == r * a + r * b
  {
  }

  lemma FitsNone(rate: nat, span: real)
    requires span >= 0.0
    ensures Fits(0, rate, span)
  {
    NotNegative(rate as real, span);
  }

  lemma FitsMore(x: nat, y: nat, rate: nat, span: real, largest: nat)
    requires Fits(x, rate, span) && y <= largest
    ensures FitsWith(x + y, rate, span, largest)
  {
  }

  lemma FitsJoin(x: nat, a: real, y: nat, b: real, rate: nat)
    requires Fits(x, rate, a) && Fits(y, rate, b)
    ensures Fits(x + y, rate, a + b)
  {
    Split(rate as real, a, b);
  }

  lemma OneAllowance(rate: nat, bytes: nat, gap: real)
    requires rate > 0 && gap >= Allowance(bytes, rate)
    ensures Fits(bytes, rate, gap)
  {
    var r := rate as real;
    assert r * Allowance(bytes, rate) == bytes as real;
    NotNegative(r, gap - Allowance(bytes, rate));
    Split(r, Allowance(bytes, rate), gap - Allowance(bytes, rate));
  }

  /** The rate and one largest transfer allow this many bytes in this time. */
  ghost predicate FitsWith(bytes: nat, rate: nat, span: real, largest: nat) {
    bytes as real <= rate as real * span + largest as real
  }

  lemma {:induction false} WindowFits(done: seq<Done>, rate: nat, largest: nat, lo: real, hi: real)
    requires rate > 0 && Paced(done, rate) && lo <= hi < LONGEST
    requires forall i :: 0 <= i < |done| ==> done[i].bytes <= largest
    ensures FitsWith(BytesIn(done, lo, hi), rate, hi - lo, largest)
  {
    hide Fits, FitsWith, Paced;
    if done == [] {
      FitsNone(rate, hi - lo);
      FitsMore(0, 0, rate, hi - lo, largest);
    } else {
      var m := |done| - 1;
      if lo <= done[m].at <= hi {
        BeforeFits(done, rate, m, lo, hi);
        FitsNone(rate, hi - done[m].at);
        FitsJoin(BytesIn(done[..m], lo, hi), done[m].at - lo, 0, hi - done[m].at, rate);
        assert (done[m].at - lo) + (hi - done[m].at) == hi - lo;
        FitsMore(BytesIn(done[..m], lo, hi), done[m].bytes, rate, hi - lo, largest);
      } else {
        PacedFront(done, rate, m);
        WindowFits(done[..m], rate, largest, lo, hi);
      }
    }
  }

  /** In every closed window: at most the rate times its length, and one largest
      transfer. Idle time before it earns nothing. */
  lemma WindowBound(done: seq<Done>, rate: nat, largest: nat, lo: real, hi: real)
    requires rate > 0 && Paced(done, rate) && lo <= hi < LONGEST
    requires forall i :: 0 <= i < |done| ==> done[i].bytes <= largest
    ensures BytesIn(done, lo, hi) as real <= rate as real * (hi - lo) + largest as real
  {
    hide Paced, BytesIn;
    WindowFits(done, rate, largest, lo, hi);
  }

  /** The extra transfer is needed: two at the very ends of a window. */
  lemma WindowTight()
    ensures var done := [Done(0.0, 10), Done(1.0, 10)];
      Paced(done, 10) && BytesIn(done, 0.0, 1.0) == 20
  {
    var done := [Done(0.0, 10), Done(1.0, 10)];
    assert Allowance(10, 10) == 1.0;
    assert Apart(done, 10, 0);
    assert done[..1] == [Done(0.0, 10)] && done[..1][..0] == [];
    assert BytesIn(done[..1], 0.0, 1.0) == 10;
  }

  // ---- the limiter ----

  class Limiter {
    const rate: nat
    var now: real         // the clock
    var next: real        // when the last transfer's allowance is used up
    var bytes: nat
    var waits: nat
    var waiting: nat
    ghost var done: seq<Done>

    ghost predicate Valid()
      reads this
    {
      && bytes <= U64_MAX
      && (rate > 0 && done != [] ==>
        var last := done[|done| - 1];
        last.at <= now && SaturatingSum(last.at, Allowance(last.bytes, rate)) <= next)
      && (rate > 0 ==> Paced(done, rate))
    }

    constructor (rate: nat, now: real)
      ensures Valid() && this.rate == rate && done == [] && bytes == 0 && waits == 0 && waiting == 0
    {
      this.rate, this.now, next := rate, now, 0.0;
      bytes, waits, waiting, done := 0, 0, 0, [];
    }

    /** One transfer, the next to get the lock: `queued` passes before it is let
        in, `late` by which a sleep overruns, `run` until it ends, and `tail`
        until the clock is read again. */
    method Transfer(size: nat, queued: real, late: real, run: real, tail: real)
      requires Valid() && queued >= 0.0 && late >= 0.0 && run >= 0.0 && tail >= 0.0
      modifies this
      ensures Valid() && waiting == old(waiting)
      ensures bytes == if rate > 0 && size == 0 then old(bytes) else if old(bytes) + size > U64_MAX then U64_MAX else old(bytes) + size
      ensures rate == 0 || size == 0 ==>
        done == old(done) && next == old(next) && waits == old(waits) && now == old(now) + queued + run
      ensures rate > 0 && size > 0 ==> |done| == |old(done)| + 1 && done[..|old(done)|] == old(done)
      ensures rate > 0 && size > 0 ==>
        var at := done[|old(done)|].at;
        && done[|old(done)|].bytes == size && old(now) + queued + run <= at && old(next) + run <= at
        && at == run + (if old(next) > old(now) + queued then old(next) + late else old(now) + queued)
        && now == at + tail
        && next == if now + size as real / rate as real > LONGEST then LONGEST else now + size as real / rate as real
      ensures rate > 0 && size > 0 ==> waits == old(waits) + if old(next) > old(now) + queued then 1 else 0
    {
      now := now + queued;
      if rate == 0 {
        bytes := SaturatingCount(bytes, size);
        now := now + run;
        return;
      }
      if size == 0 {
        now := now + run;
        return;
      }
      bytes := SaturatingCount(bytes, size);
      var delay := SaturatingDifference(next, now);
      if delay > 0.0 {
        waits, waiting := waits + 1, waiting + 1;
        now := now + delay + late;
        waiting := waiting - 1;
      }
      now := now + run;
      PacedPush(done, rate, Done(now, size));
      done := done + [Done(now, size)];
      now := now + tail;
      LaterAllowance(done[|done| - 1].at, now, Allowance(size, rate));
      next := SaturatingSum(now, Allowance(size, rate));
    }

    /** Whatever was transferred, in every window there was. */
    lemma Bounded(largest: nat, lo: real, hi: real)
      requires Valid() && rate > 0 && lo <= hi < LONGEST
      requires forall i :: 0 <= i < |done| ==> done[i].bytes <= largest
      ensures BytesIn(done, lo, hi) as real <= rate as real * (hi - lo) + largest as real
    {
      WindowBound(done, rate, largest, lo, hi);
    }
  }

  lemma PacedPush(done: seq<Done>, rate: nat, d: Done)
    requires rate > 0 && Paced(done, rate)
    requires done != [] ==>
      var last := done[|done| - 1]; last.at <= d.at && SaturatingSum(last.at, Allowance(last.bytes, rate)) <= d.at
    ensures Paced(done + [d], rate)
  {
    forall i: nat | i + 1 < |done + [d]|
      ensures Apart(done + [d], rate, i)
    {
      assert i + 1 < |done| ==> Apart(done, rate, i);
    }
  }

  lemma LaterAllowance(a: real, b: real, allowance: real)
    requires a <= b
    ensures SaturatingSum(a, allowance) <= SaturatingSum(b, allowance)
  {
  }
}
