/** Counting scatter: values grouped by key, in order within each group. */
module Scatter {
  import opened Sorting

  /** The values whose key is `k`, in order. */
  function Of(vals: seq<nat>, keys: seq<nat>, k: nat): seq<nat>
    requires |vals| == |keys|
  {
    if keys == [] then []
    else
      var n := |keys| - 1;
      Of(vals[..n], keys[..n], k) + if keys[n] == k then [vals[n]] else []
  }

  function Count(keys: seq<nat>, k: nat): nat {
    if keys == [] then 0
    else
      var n := |keys| - 1;
      Count(keys[..n], k) + if keys[n] == k then 1 else 0
  }

  /** How many keys are below `p`: where its group begins. */
  function Before(keys: seq<nat>, p: nat): nat {
    if p == 0 then 0 else Before(keys, p - 1) + Count(keys, p - 1)
  }

  ghost predicate Below(keys: seq<nat>, parts: nat) {
    forall i :: 0 <= i < |keys| ==> keys[i] < parts
  }

  lemma {:induction false} OfSize(vals: seq<nat>, keys: seq<nat>, k: nat)
    requires |vals| == |keys|
    ensures |Of(vals, keys, k)| == Count(keys, k)
  {
    if keys != [] {
      var n := |keys| - 1;
      OfSize(vals[..n], keys[..n], k);
    }
  }

  lemma CountNext(keys: seq<nat>, i: nat, k: nat)
    requires i < |keys|
    ensures Count(keys[..i + 1], k) == Count(keys[..i], k) + if keys[i] == k then 1 else 0
  {
    assert keys[..i + 1][..i] == keys[..i];
  }

  lemma OfNext(vals: seq<nat>, keys: seq<nat>, i: nat, k: nat)
    requires |vals| == |keys| && i < |keys|
    ensures Of(vals[..i + 1], keys[..i + 1], k)
      == if keys[i] == k then Of(vals[..i], keys[..i], k) + [vals[i]] else Of(vals[..i], keys[..i], k)
  {
    assert keys[..i + 1][..i] == keys[..i] && vals[..i + 1][..i] == vals[..i];
  }

  lemma {:induction false} CountGrows(keys: seq<nat>, i: nat, j: nat, k: nat)
    requires i <= j <= |keys|
    ensures Count(keys[..i], k) <= Count(keys[..j], k)
    ensures i < j && keys[i] == k ==> Count(keys[..i], k) < Count(keys[..j], k)
  {
    if i < j {
      CountGrows(keys, i, j - 1, k);
      CountNext(keys, j - 1, k);
    }
  }

  lemma CountPrefix(keys: seq<nat>, i: nat, k: nat)
    requires i <= |keys|
    ensures Count(keys[..i], k) <= Count(keys, k)
    ensures i < |keys| && keys[i] == k ==> Count(keys[..i], k) < Count(keys, k)
  {
    CountGrows(keys, i, |keys|, k);
    assert keys[..|keys|] == keys;
  }

  lemma {:induction false} BeforeGrows(keys: seq<nat>, p: nat, q: nat)
    requires p < q
    ensures Before(keys, p) + Count(keys, p) <= Before(keys, q)
  {
    if p + 1 < q {
      BeforeGrows(keys, p, q - 1);
    }
  }

  lemma {:induction false} BeforePush(keys: seq<nat>, p: nat)
    requires keys != []
    ensures Before(keys, p) == Before(keys[..|keys| - 1], p) + if keys[|keys| - 1] < p then 1 else 0
  {
    if p > 0 {
      BeforePush(keys, p - 1);
    }
  }

  lemma {:induction false} BeforeNone(p: nat)
    ensures Before([], p) == 0
  {
    if p > 0 {
      BeforeNone(p - 1);
    }
  }

  /** The groups tile the whole. */
  lemma {:induction false} BeforeAll(keys: seq<nat>, parts: nat)
    requires Below(keys, parts)
    ensures Before(keys, parts) == |keys|
  {
    if keys == [] {
      BeforeNone(parts);
    } else {
      BeforePush(keys, parts);
      BeforeAll(keys[..|keys| - 1], parts);
    }
  }

  /** Where the value at `i` goes. */
  function Place(keys: seq<nat>, i: nat): nat
    requires i < |keys|
  {
    Before(keys, keys[i]) + Count(keys[..i], keys[i])
  }

  lemma PlaceBelow(keys: seq<nat>, parts: nat, i: nat)
    requires Below(keys, parts) && i < |keys|
    ensures Place(keys, i) < Before(keys, keys[i]) + Count(keys, keys[i]) <= |keys|
  {
    CountPrefix(keys, i, keys[i]);
    BeforeAll(keys, parts);
    BeforeGrows(keys, keys[i], parts);
  }

  // ---- filling the groups ----

  ghost predicate Segment(out: seq<nat>, at: nat, s: seq<nat>) {
    at + |s| <= |out| && out[at..at + |s|] == s
  }

  /** The first `r` values are in their places, in order. */
  ghost predicate Grouped(out: seq<nat>, lo: nat, vals: seq<nat>, keys: seq<nat>, parts: nat, r: nat)
    requires |vals| == |keys| && r <= |keys|
  {
    forall p: nat :: p < parts ==> Segment(out, lo + Before(keys, p), Of(vals[..r], keys[..r], p))
  }

  lemma GroupedNone(out: seq<nat>, lo: nat, vals: seq<nat>, keys: seq<nat>, parts: nat)
    requires |vals| == |keys| && Below(keys, parts) && lo + |keys| <= |out|
    ensures Grouped(out, lo, vals, keys, parts, 0)
  {
    BeforeAll(keys, parts);
    forall p: nat | p < parts
      ensures Segment(out, lo + Before(keys, p), Of(vals[..0], keys[..0], p))
    {
      BeforeGrows(keys, p, parts);
    }
  }

  /** One more value into its place. */
  lemma GroupedStep(out: seq<nat>, lo: nat, vals: seq<nat>, keys: seq<nat>, parts: nat, r: nat)
    requires |vals| == |keys| && r < |keys| && Below(keys, parts) && lo + |keys| <= |out|
    requires Grouped(out, lo, vals, keys, parts, r)
    ensures lo + Place(keys, r) < lo + |keys|
    ensures Grouped(out[lo + Place(keys, r) := vals[r]], lo, vals, keys, parts, r + 1)
  {
    hide Of, Before, Count, Segment, Place;
    PlaceBelow(keys, parts, r);
    var at := lo + Place(keys, r);
    var after := out[at := vals[r]];
    forall p: nat | p < parts
      ensures Segment(after, lo + Before(keys, p), Of(vals[..r + 1], keys[..r + 1], p))
    {
      assert Segment(out, lo + Before(keys, p), Of(vals[..r], keys[..r], p));
      OfNext(vals, keys, r, p);
      PlaceIn(vals, keys, parts, r, p);
      if keys[r] == p {
        SegmentPush(out, lo + Before(keys, p), Of(vals[..r], keys[..r], p), vals[r]);
      } else {
        SegmentKept(out, lo + Before(keys, p), Of(vals[..r], keys[..r], p), at, vals[r]);
      }
    }
  }

  /** The place is next in its own group and outside every other. */
  lemma PlaceIn(vals: seq<nat>, keys: seq<nat>, parts: nat, r: nat, p: nat)
    requires |vals| == |keys| && r < |keys|
    ensures keys[r] == p ==> Place(keys, r) == Before(keys, p) + |Of(vals[..r], keys[..r], p)|
    ensures keys[r] != p ==> !(Before(keys, p) <= Place(keys, r) < Before(keys, p) + |Of(vals[..r], keys[..r], p)|)
  {
    hide Of, Before, Count;
    OfSize(vals[..r], keys[..r], p);
    CountPrefix(keys, r, p);
    CountPrefix(keys, r, keys[r]);
    if p < keys[r] {
      BeforeGrows(keys, p, keys[r]);
    } else if keys[r] < p {
      BeforeGrows(keys, keys[r], p);
    }
  }

  lemma SegmentPush(out: seq<nat>, at: nat, s: seq<nat>, x: nat)
    requires Segment(out, at, s) && at + |s| < |out|
    ensures Segment(out[at + |s| := x], at, s + [x])
  {
    var after := out[at + |s| := x];
    assert after[at..at + |s| + 1] == out[at..at + |s|] + [x];
  }

  lemma SegmentKept(out: seq<nat>, at: nat, s: seq<nat>, i: nat, x: nat)
    requires Segment(out, at, s) && i < |out| && !(at <= i < at + |s|)
    ensures Segment(out[i := x], at, s)
  {
    assert out[i := x][at..at + |s|] == out[at..at + |s|];
  }

  lemma GroupedAll(out: seq<nat>, lo: nat, vals: seq<nat>, keys: seq<nat>, parts: nat)
    requires |vals| == |keys| && Grouped(out, lo, vals, keys, parts, |keys|)
    ensures forall p: nat :: p < parts ==> Segment(out, lo + Before(keys, p), Of(vals, keys, p))
  {
    hide Of, Before, Segment;
    assert vals[..|keys|] == vals && keys[..|keys|] == keys;
  }

  // ---- what a group holds ----

  lemma {:induction false} OfMembers(vals: seq<nat>, keys: seq<nat>, k: nat, x: nat)
    requires |vals| == |keys|
    ensures x in Of(vals, keys, k) <==> exists i :: 0 <= i < |keys| && keys[i] == k && vals[i] == x
  {
    if keys != [] {
      var n := |keys| - 1;
      OfMembers(vals[..n], keys[..n], k, x);
      if exists i :: 0 <= i < n && keys[i] == k && vals[i] == x {
        var i :| 0 <= i < n && keys[i] == k && vals[i] == x;
        assert keys[..n][i] == k && vals[..n][i] == x;
      }
      if exists i :: 0 <= i < n && keys[..n][i] == k && vals[..n][i] == x {
        var i :| 0 <= i < n && keys[..n][i] == k && vals[..n][i] == x;
        assert keys[i] == k && vals[i] == x;
      }
      assert x in Of(vals, keys, k) <==> x in Of(vals[..n], keys[..n], k) || (keys[n] == k && vals[n] == x);
    }
  }

  lemma {:induction false} OfAscending(vals: seq<nat>, keys: seq<nat>, k: nat)
    requires |vals| == |keys| && Ascending(vals)
    ensures Ascending(Of(vals, keys, k))
  {
    if keys != [] {
      var n := |keys| - 1;
      OfAscending(vals[..n], keys[..n], k);
      forall x | x in Of(vals[..n], keys[..n], k)
        ensures x < vals[n]
      {
        OfMembers(vals[..n], keys[..n], k, x);
      }
      var s := Of(vals[..n], keys[..n], k);
      assert forall i :: 0 <= i < |s| ==> s[i] in s;
    }
  }

  /** The value at `i` is found in its group by counting. */
  lemma {:induction false} OfAt(vals: seq<nat>, keys: seq<nat>, i: nat)
    requires |vals| == |keys| && i < |keys|
    ensures Count(keys[..i], keys[i]) < |Of(vals, keys, keys[i])|
    ensures Of(vals, keys, keys[i])[Count(keys[..i], keys[i])] == vals[i]
    decreases |keys|
  {
    var n := |keys| - 1;
    if i == n {
      OfSize(vals[..n], keys[..n], keys[n]);
    } else {
      assert keys[..n][..i] == keys[..i];
      OfAt(vals[..n], keys[..n], i);
    }
  }

  /** How many of each key lie between two places. */
  ghost predicate Tallied(tally: seq<nat>, keys: seq<nat>, from: nat, to: nat) {
    from <= to <= |keys|
    && forall p: nat :: p < |tally| ==> TalliedAt(tally, keys, from, to, p)
  }

  ghost predicate TalliedAt(tally: seq<nat>, keys: seq<nat>, from: nat, to: nat, p: nat)
    requires from <= to <= |keys| && p < |tally|
  {
    tally[p] + Count(keys[..from], p) == Count(keys[..to], p)
  }

  lemma TalliedNone(tally: seq<nat>, keys: seq<nat>, from: nat)
    requires from <= |keys| && forall p :: 0 <= p < |tally| ==> tally[p] == 0
    ensures Tallied(tally, keys, from, from)
  {
  }

  lemma TalliedStep(tally: seq<nat>, keys: seq<nat>, from: nat, to: nat)
    requires Tallied(tally, keys, from, to) && to < |keys| && keys[to] < |tally|
    ensures Tallied(tally[keys[to] := tally[keys[to]] + 1], keys, from, to + 1)
  {
    hide Count;
    var after, next := tally[keys[to] := tally[keys[to]] + 1], to + 1;
    forall p: nat | p < |after|
      ensures TalliedAt(after, keys, from, next, p)
    {
      assert TalliedAt(tally, keys, from, to, p);
      CountNext(keys, to, p);
    }
  }
}
