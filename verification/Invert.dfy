/** Inverting postings into per-document key sets, in place, and writing one
    filter per live document. */
module Invert {
  import opened Bits
  import opened Fuse
  import opened FuseBuild
  import opened Sorting
  import opened Screen
  import opened Basics

  /** One visited posting: a document and its term's filter key. */
  datatype Posting = Posting(doc: nat, key: U64)

  /** The keys visited for `doc`, in visiting order. */
  function KeysFor(posts: seq<Posting>, doc: nat): seq<U64> {
    if posts == [] then []
    else
      var n := |posts| - 1;
      KeysFor(posts[..n], doc) + (if posts[n].doc == doc then [posts[n].key] else [])
  }

  /** Where `doc`'s keys start when every document's are laid out in turn. */
  function Offset(posts: seq<Posting>, doc: nat): nat {
    if doc == 0 then 0 else Offset(posts, doc - 1) + |KeysFor(posts, doc - 1)|
  }

  predicate Le(a: U64, b: U64) {
    a <= b
  }

  /** A sorted list without its repetitions. */
  function Dedup(s: seq<U64>): seq<U64> {
    if |s| <= 1 then s
    else
      var n := |s| - 1;
      Dedup(s[..n]) + (if s[n] == s[n - 1] then [] else [s[n]])
  }

  function Distinct(posts: seq<Posting>, doc: nat): seq<U64> {
    Dedup(Sort(KeysFor(posts, doc), Le))
  }

  /** The first `docs` documents' distinct keys in turn. */
  function Compacted(posts: seq<Posting>, docs: nat): seq<U64> {
    if docs == 0 then [] else Compacted(posts, docs - 1) + Distinct(posts, docs - 1)
  }

  lemma {:induction false} DedupKeeps(s: seq<U64>)
    requires SortedBy(s, Le)
    ensures Ascending(Dedup(s))
    ensures forall x :: x in Dedup(s) <==> x in s
    ensures s != [] ==> Dedup(s) != [] && Dedup(s)[|Dedup(s)| - 1] == s[|s| - 1]
    ensures |Dedup(s)| <= |s|
  {
    if |s| > 1 {
      var n := |s| - 1;
      var d := Dedup(s[..n]);
      DedupKeeps(s[..n]);
      assert s == s[..n] + [s[n]];
      assert Le(s[n - 1], s[n]);
    }
  }

  /** A document's key set: ascending, without repetition, nothing lost. */
  lemma DistinctKeys(posts: seq<Posting>, doc: nat)
    ensures Ascending(Distinct(posts, doc))
    ensures forall key: U64 :: key in Distinct(posts, doc) <==> Posting(doc, key) in posts
    ensures |Distinct(posts, doc)| <= |KeysFor(posts, doc)|
  {
    var s := Sort(KeysFor(posts, doc), Le);
    SortSorted(KeysFor(posts, doc), Le);
    DedupKeeps(s);
    forall key: U64
      ensures key in KeysFor(posts, doc) <==> Posting(doc, key) in posts
    {
      KeysForMember(posts, doc, key);
    }
  }

  lemma {:induction false} KeysForMember(posts: seq<Posting>, doc: nat, key: U64)
    ensures key in KeysFor(posts, doc) <==> Posting(doc, key) in posts
  {
    if posts != [] {
      var n := |posts| - 1;
      KeysForMember(posts[..n], doc, key);
      assert posts == posts[..n] + [posts[n]];
    }
  }

  lemma {:induction false} OffsetMonotone(posts: seq<Posting>, d: nat, e: nat)
    requires d < e
    ensures Offset(posts, d) + |KeysFor(posts, d)| <= Offset(posts, e)
    decreases e
  {
    if d + 1 < e {
      OffsetMonotone(posts, d, e - 1);
    }
  }

  lemma {:induction false} PrefixKeys(posts: seq<Posting>, k: nat, doc: nat)
    requires k <= |posts|
    ensures |KeysFor(posts[..k], doc)| <= |KeysFor(posts, doc)|
    ensures k < |posts| ==>
      KeysFor(posts[..k + 1], doc) == KeysFor(posts[..k], doc) + if posts[k].doc == doc then [posts[k].key] else []
    decreases |posts| - k
  {
    if k < |posts| {
      assert posts[..k + 1][..k] == posts[..k];
      PrefixKeys(posts, k + 1, doc);
    } else {
      assert posts[..k] == posts;
    }
  }

  // ---- the two passes ----

  /** Postings per document. */
  method KeyCounts(posts: seq<Posting>, bound: nat) returns (counts: array<nat>)
    requires forall i :: 0 <= i < |posts| ==> posts[i].doc < bound
    ensures fresh(counts) && counts.Length == bound
    ensures forall d: nat :: d < bound ==> counts[d] == |KeysFor(posts, d)|
  {
    counts := new nat[bound](_ => 0);
    for k := 0 to |posts|
      invariant forall d: nat :: d < bound ==> counts[d] == |KeysFor(posts[..k], d)|
    {
      forall d: nat | d < bound
        ensures KeysFor(posts[..k + 1], d) == KeysFor(posts[..k], d) + if posts[k].doc == d then [posts[k].key] else []
      {
        PrefixKeys(posts, k, d);
      }
      counts[posts[k].doc] := counts[posts[k].doc] + 1;
    }
    assert posts[..|posts|] == posts;
  }

  /** Every document's range holds the keys visited so far, in order. */
  ghost predicate Filled(posts: seq<Posting>, k: nat, keys: seq<U64>, bound: nat)
    requires k <= |posts|
  {
    forall d: nat :: d < bound ==> FilledAt(posts, k, keys, d)
  }

  ghost predicate FilledAt(posts: seq<Posting>, k: nat, keys: seq<U64>, d: nat)
    requires k <= |posts|
  {
    var at, have := Offset(posts, d), KeysFor(posts[..k], d);
    at + |have| <= |keys| && keys[at..at + |have|] == have
  }

  lemma FillStep(posts: seq<Posting>, k: nat, keys: seq<U64>, bound: nat, at: nat)
    requires k < |posts| && posts[k].doc < bound && Filled(posts, k, keys, bound)
    requires |keys| == Offset(posts, bound)
    requires at == Offset(posts, posts[k].doc) + |KeysFor(posts[..k], posts[k].doc)|
    ensures at < |keys| && Filled(posts, k + 1, keys[at := posts[k].key], bound)
  {
    hide Offset, KeysFor;
    var doc := posts[k].doc;
    PrefixKeys(posts, k, doc);
    PrefixKeys(posts, k + 1, doc);
    OffsetMonotone(posts, doc, bound);
    var keys', next := keys[at := posts[k].key], k + 1;
    forall d: nat | d < bound
      ensures FilledAt(posts, next, keys', d)
    {
      assert FilledAt(posts, k, keys, d);
      PrefixKeys(posts, k, d);
      var from, have := Offset(posts, d), KeysFor(posts[..k], d);
      if d == doc {
        assert keys'[from..at + 1] == keys[from..at] + [posts[k].key];
      } else {
        if d < doc {
          OffsetMonotone(posts, d, doc);
        } else {
          OffsetMonotone(posts, doc, d);
        }
        assert keys'[from..from + |have|] == keys[from..from + |have|];
      }
    }
  }

  method Fill(posts: seq<Posting>, bound: nat, offsets: seq<nat>) returns (keys: array<U64>)
    requires forall i :: 0 <= i < |posts| ==> posts[i].doc < bound
    requires |offsets| == bound + 1 && forall d: nat :: d <= bound ==> offsets[d] == Offset(posts, d)
    ensures fresh(keys) && keys.Length == Offset(posts, bound)
    ensures Filled(posts, |posts|, keys[..], bound)
  {
    keys := new U64[offsets[bound]](_ => 0);
    var fill := new nat[bound](d requires 0 <= d < bound => offsets[d]);
    FilledEmpty(posts, keys[..], bound);
    for k := 0 to |posts|
      invariant forall d: nat :: d < bound ==> fill[d] == Offset(posts, d) + |KeysFor(posts[..k], d)|
      invariant Filled(posts, k, keys[..], bound)
    {
      hide Filled, Offset, KeysFor;
      var doc := posts[k].doc;
      var at := fill[doc];
      FillStep(posts, k, keys[..], bound, at);
      PrefixCounts(posts, k);
      keys[at] := posts[k].key;
      fill[doc] := at + 1;
    }
  }

  lemma PrefixCounts(posts: seq<Posting>, k: nat)
    requires k < |posts|
    ensures forall d: nat ::
      |KeysFor(posts[..k + 1], d)| == |KeysFor(posts[..k], d)| + if posts[k].doc == d then 1 else 0
  {
    forall d: nat
      ensures |KeysFor(posts[..k + 1], d)| == |KeysFor(posts[..k], d)| + if posts[k].doc == d then 1 else 0
    {
      PrefixKeys(posts, k, d);
    }
  }

  lemma FilledEmpty(posts: seq<Posting>, keys: seq<U64>, bound: nat)
    requires |keys| == Offset(posts, bound)
    ensures Filled(posts, 0, keys, bound)
  {
    forall d: nat | d < bound
      ensures FilledAt(posts, 0, keys, d)
    {
      OffsetMonotone(posts, d, bound);
    }
  }

  // ---- each range down to its distinct keys ----

  /** A library sort of one slice. */
  method SortSlice(a: array<U64>, lo: nat, hi: nat)
    requires lo <= hi <= a.Length
    modifies a
    ensures a[..] == old(a[..lo]) + Sort(old(a[lo..hi]), Le) + old(a[hi..])
  {
    hide Sort, SortedBy, TotalOrder;
    ghost var was := a[..];
    LeOrder();
    SortSorted(a[lo..hi], Le);
    var sorted := Sort(a[lo..hi], Le);
    for i := lo to hi
      invariant a[..] == was[..lo] + sorted[..i - lo] + was[i..]
    {
      a[i] := sorted[i - lo];
      SliceStep(was, sorted, lo, i, a[..]);
    }
    SliceDone(was, sorted, lo, hi, a[..]);
  }

  lemma LeOrder()
    ensures TotalOrder(Le)
  {
  }

  lemma SliceStep(was: seq<U64>, sorted: seq<U64>, lo: nat, i: nat, now: seq<U64>)
    requires lo <= i < |was| && i - lo < |sorted|
    requires now == (was[..lo] + sorted[..i - lo] + was[i..])[i := sorted[i - lo]]
    ensures now == was[..lo] + sorted[..i - lo + 1] + was[i + 1..]
  {
  }

  lemma SliceDone(was: seq<U64>, sorted: seq<U64>, lo: nat, hi: nat, now: seq<U64>)
    requires lo <= hi <= |was| && |sorted| == hi - lo && now == was[..lo] + sorted[..hi - lo] + was[hi..]
    ensures now == was[..lo] + sorted + was[hi..]
  {
    assert sorted[..hi - lo] == sorted;
  }

  /** One range half compacted: `i` is the reader, `write` the writer. */
  ghost predicate Compacting(was: seq<U64>, now: seq<U64>, from: nat, start: nat, i: nat, end: nat, write: nat) {
    && from <= start <= i <= end <= |was| == |now| && from <= write <= i
    && now[..from] == was[..from] && now[i..] == was[i..]
    && now[from..write] == Dedup(was[start..end][..i - start])
  }

  lemma CompactStep(was: seq<U64>, now: seq<U64>, from: nat, start: nat, i: nat, end: nat, write: nat)
    requires Compacting(was, now, from, start, i, end, write) && i < end
    ensures now[i] == was[start..end][i - start]
    ensures if i > start && was[start..end][i - start - 1] == now[i]
      then Compacting(was, now, from, start, i + 1, end, write)
      else Compacting(was, now[write := now[i]], from, start, i + 1, end, write + 1)
  {
    var range, j := was[start..end], i - start;
    assert range[..j + 1][..j] == range[..j];
    assert now[i] == now[i..][0] == was[i..][0] == range[j];
    var next := now[write := now[i]];
    assert now[i + 1..] == now[i..][1..] && was[i + 1..] == was[i..][1..];
    assert next[i + 1..] == now[i + 1..];
    assert next[from..write + 1] == now[from..write] + [now[i]];
    assert next[..from] == now[..from];
    if j > 0 {
      assert range[..j + 1][j] == range[j] && range[..j + 1][j - 1] == range[j - 1];
    }
  }

  /** Compacts one sorted range down to `from`; the writer never passes the reader. */
  method CompactRange(keys: array<U64>, start: nat, end: nat, from: nat) returns (write: nat)
    requires from <= start <= end <= keys.Length
    modifies keys
    ensures var d := Dedup(old(keys[start..end]));
      write == from + |d| <= end && keys[..write] == old(keys[..from]) + d
    ensures keys[end..] == old(keys[end..])
  {
    hide Dedup;
    ghost var was := keys[..];
    DedupNothing(was[start..end][..0]);
    write := from;
    var last: Option<U64> := None;
    for i := start to end
      invariant Compacting(was, keys[..], from, start, i, end, write)
      invariant last == if i == start then None else Some(was[start..end][i - start - 1])
    {
      CompactStep(was, keys[..], from, start, i, end, write);
      if last != Some(keys[i]) {
        last := Some(keys[i]);
        keys[write] := keys[i];
        write := write + 1;
      }
    }
    assert was[start..end][..end - start] == was[start..end];
    assert keys[..write] == keys[..][..from] + keys[..][from..write];
    assert keys[end..] == keys[..][end..];
  }

  lemma DedupNothing(s: seq<U64>)
    requires s == []
    ensures Dedup(s) == []
  {
  }

  /** Every document's distinct keys: `doc`'s are `keys[offsets[doc]..offsets[doc + 1]]`. */
  datatype DocKeys = DocKeys(offsets: seq<nat>, keys: seq<U64>) {
    predicate Valid() {
      |offsets| >= 1 && forall d: nat :: d < |offsets| - 1 ==> InBounds(d)
    }

    predicate InBounds(d: nat)
      requires d < |offsets| - 1
    {
      offsets[d] <= offsets[d + 1] <= |keys|
    }

    function Of(d: nat): seq<U64>
      requires Valid() && d < |offsets| - 1
    {
      assert InBounds(d);
      keys[offsets[d]..offsets[d + 1]]
    }
  }

  /** Sorts, deduplicates and compacts every document's range in place. */
  method CompactAll(posts: seq<Posting>, bound: nat, offsets: seq<nat>, keys: array<U64>)
    returns (compacted: seq<nat>)
    requires |offsets| == bound + 1 && forall d: nat :: d <= bound ==> offsets[d] == Offset(posts, d)
    requires keys.Length == Offset(posts, bound) && Filled(posts, |posts|, keys[..], bound)
    modifies keys
    ensures |compacted| == bound + 1
    ensures forall e: nat :: e <= bound ==> compacted[e] == |Compacted(posts, e)|
    ensures compacted[bound] <= keys.Length && keys[..compacted[bound]] == Compacted(posts, bound)
  {
    hide *;
    CompactedNone(posts);
    var write: nat := 0;
    compacted := [0];
    ghost var filled := keys[..];
    for doc := 0 to bound
      invariant write <= Offset(posts, doc) <= keys.Length
      invariant |compacted| == doc + 1 && forall e: nat :: e <= doc ==> compacted[e] == |Compacted(posts, e)|
      invariant write == compacted[doc] && keys[..write] == Compacted(posts, doc)
      invariant keys[Offset(posts, doc)..] == filled[Offset(posts, doc)..]
    {
      var start, end := offsets[doc], offsets[doc + 1];
      RangeFilled(posts, filled, bound, doc);
      ghost var before := keys[..];
      Slices(before, filled, start, end);
      SortSlice(keys, start, end);
      ghost var sorted := Sort(KeysFor(posts, doc), Le);
      SortSorted(KeysFor(posts, doc), Le);
      SortedSlices(before, keys[..], sorted, start, end, write);
      write := CompactRange(keys, start, end, write);
      CompactedNext(posts, doc);
      compacted := compacted + [write];
    }
  }

  lemma CompactedNone(posts: seq<Posting>)
    ensures Compacted(posts, 0) == [] && Offset(posts, 0) == 0 && TotalOrder(Le)
  {
  }

  lemma CompactedNext(posts: seq<Posting>, doc: nat)
    ensures Compacted(posts, doc + 1) == Compacted(posts, doc) + Dedup(Sort(KeysFor(posts, doc), Le))
  {
  }

  lemma Slices(now: seq<U64>, was: seq<U64>, start: nat, end: nat)
    requires |now| == |was| && start <= end <= |now| && now[start..] == was[start..]
    ensures now[start..end] == was[start..end] && now[end..] == was[end..]
  {
    assert now[start..end] == now[start..][..end - start];
    assert was[start..end] == was[start..][..end - start];
    assert now[end..] == now[start..][end - start..];
    assert was[end..] == was[start..][end - start..];
  }

  lemma SortedSlices(was: seq<U64>, now: seq<U64>, sorted: seq<U64>, start: nat, end: nat, write: nat)
    requires write <= start <= end <= |was| && |sorted| == end - start
    requires now == was[..start] + sorted + was[end..]
    ensures |now| == |was| && now[start..end] == sorted && now[..write] == was[..write] && now[end..] == was[end..]
  {
  }

  method Offsets(posts: seq<Posting>, bound: nat, counts: seq<nat>) returns (offsets: seq<nat>)
    requires |counts| == bound && forall d: nat :: d < bound ==> counts[d] == |KeysFor(posts, d)|
    ensures |offsets| == bound + 1 && forall d: nat :: d <= bound ==> offsets[d] == Offset(posts, d)
  {
    hide KeysFor;
    offsets := [0];
    for d := 0 to bound
      invariant |offsets| == d + 1 && forall e: nat :: e <= d ==> offsets[e] == Offset(posts, e)
    {
      offsets := offsets + [offsets[d] + counts[d]];
    }
  }

  method InvertPostings(posts: seq<Posting>, bound: nat) returns (r: DocKeys)
    requires forall i :: 0 <= i < |posts| ==> posts[i].doc < bound
    ensures r.Valid() && |r.offsets| == bound + 1
    ensures forall d: nat :: d < bound ==> r.Of(d) == Distinct(posts, d)
  {
    hide *;
    var counts := KeyCounts(posts, bound);
    var offsets := Offsets(posts, bound, counts[..]);
    var keys := Fill(posts, bound, offsets);
    var compacted := CompactAll(posts, bound, offsets, keys);
    r := DocKeys(compacted, keys[..compacted[bound]]);
    CompactedSlices(posts, bound, r);
  }

  lemma RangeFilled(posts: seq<Posting>, filled: seq<U64>, bound: nat, d: nat)
    requires d < bound && |filled| == Offset(posts, bound) && Filled(posts, |posts|, filled, bound)
    ensures Offset(posts, d) <= Offset(posts, d + 1) <= |filled|
    ensures filled[Offset(posts, d)..Offset(posts, d + 1)] == KeysFor(posts, d)
  {
    assert FilledAt(posts, |posts|, filled, d);
    assert posts[..|posts|] == posts;
    if d + 1 < bound {
      OffsetMonotone(posts, d + 1, bound);
    }
  }

  lemma {:induction false} CompactedPrefix(posts: seq<Posting>, d: nat, bound: nat)
    requires d <= bound
    ensures |Compacted(posts, d)| <= |Compacted(posts, bound)|
    ensures Compacted(posts, bound)[..|Compacted(posts, d)|] == Compacted(posts, d)
    decreases bound
  {
    hide Distinct;
    if d < bound {
      CompactedPrefix(posts, d, bound - 1);
    }
  }

  lemma CompactedSlices(posts: seq<Posting>, bound: nat, r: DocKeys)
    requires |r.offsets| == bound + 1 && r.keys == Compacted(posts, bound)
    requires forall e: nat :: e <= bound ==> r.offsets[e] == |Compacted(posts, e)|
    ensures r.Valid() && forall d: nat :: d < bound ==> r.Of(d) == Distinct(posts, d)
  {
    hide Distinct;
    forall d: nat | d < bound
      ensures r.InBounds(d) && r.keys[r.offsets[d]..r.offsets[d + 1]] == Distinct(posts, d)
    {
      CompactedPrefix(posts, d + 1, bound);
      var c := Compacted(posts, d + 1);
      assert r.keys[..|c|] == c;
      assert r.keys[r.offsets[d]..r.offsets[d + 1]] == r.keys[..|c|][r.offsets[d]..];
    }
  }

  // ---- filter files ----

  ghost predicate BuiltFor(f: Filter, keys: seq<U64>) {
    f.shape.log2 < 256 && if keys == [] then f.fingerprints == [] else FilterFor(f, keys)
  }

  /** One document's part of a filter file. */
  ghost predicate StoredAt(keys: DocKeys, live: nat -> bool, file: seq<U8>, offsets: seq<nat>, filters: seq<Filter>, d: nat)
    requires keys.Valid() && d < |keys.offsets| - 1 && d + 1 < |offsets| && d < |filters|
  {
    && offsets[d] <= offsets[d + 1] <= |file|
    && if live(d) then BuiltFor(filters[d], keys.Of(d)) && file[offsets[d]..offsets[d + 1]] == Serialized(filters[d])
       else offsets[d] == offsets[d + 1]
  }

  /** One filter per live document, in document order, with an offset for each. */
  method WriteFilters(keys: DocKeys, live: nat -> bool, sizer: nat -> Shape)
    returns (r: Option<(seq<nat>, seq<U8>)>, ghost filters: seq<Filter>)
    requires keys.Valid() && |keys.offsets| <= TWO32
    requires forall n: nat :: sizer(n).Valid() && sizer(n).segments + GROWTH < TWO32
    ensures r.Some? ==>
      && |r.value.0| == |keys.offsets| && |filters| == |keys.offsets| - 1
      && forall d: nat :: d < |filters| ==> StoredAt(keys, live, r.value.1, r.value.0, filters, d)
    ensures r.None? <==> exists d: nat :: d < |keys.offsets| - 1 && live(d) && Unpeelable(keys, sizer, d)
  {
    hide Serialized, FilterFor, NoSeedPeels;
    var offsets: seq<nat> := [];
    var out: seq<U8> := [];
    filters := [];
    var bound := |keys.offsets| - 1;
    for doc := 0 to bound
      invariant |offsets| == |filters| == doc
      invariant forall d: nat :: d < doc ==> StoredAt(keys, live, out, offsets + [|out|], filters, d)
      invariant forall d: nat :: d < doc && live(d) ==> !Unpeelable(keys, sizer, d)
    {
      ghost var before, starts, had := out, offsets + [|out|], filters;
      offsets := offsets + [|out|];
      if !live(doc) {
        filters := filters + [Filter(0, Shape(0, 1), [], 0)];
      } else {
        var own := keys.Of(doc);
        var filter := Build(own, sizer(|own|), doc);
        if filter.None? {
          assert Unpeelable(keys, sizer, doc);
          return None, filters;
        }
        out := Write(filter.value, out);
        filters := filters + [filter.value];
      }
      forall d: nat | d < doc + 1
        ensures StoredAt(keys, live, out, offsets + [|out|], filters, d)
      {
        if d < doc {
          StoredStays(keys, live, before, starts, had, out, offsets + [|out|], filters, d);
        }
      }
    }
    r := Some((offsets + [|out|], out));
  }

  /** Writing more leaves what is stored where it is. */
  lemma StoredStays(keys: DocKeys, live: nat -> bool, file: seq<U8>, offsets: seq<nat>, filters: seq<Filter>,
                    file': seq<U8>, offsets': seq<nat>, filters': seq<Filter>, d: nat)
    requires keys.Valid() && d < |keys.offsets| - 1 && d + 1 < |offsets| && d < |filters|
    requires StoredAt(keys, live, file, offsets, filters, d)
    requires file <= file' && offsets <= offsets' && filters <= filters'
    ensures StoredAt(keys, live, file', offsets', filters', d)
  {
    hide Serialized, FilterFor;
    assert file'[offsets[d]..offsets[d + 1]] == file[offsets[d]..offsets[d + 1]];
  }

  ghost predicate Unpeelable(keys: DocKeys, sizer: nat -> Shape, d: nat)
    requires keys.Valid() && d < |keys.offsets| - 1 && d < TWO32
  {
    keys.Of(d) != [] && NoSeedPeels(sizer(|keys.Of(d)|), keys.Of(d), d)
  }

  /** Screening never loses a match: a live document with a posting for every
      key of one of a need's lists is admitted by its stored filter. */
  lemma ScreeningLosesNothing(posts: seq<Posting>, keys: DocKeys, live: nat -> bool, file: seq<U8>, offsets: seq<nat>,
                              filters: seq<Filter>, d: nat, need: Need, list: seq<U64>)
    requires keys.Valid() && d < |keys.offsets| - 1 && d + 1 < |offsets| && d < |filters|
    requires keys.Of(d) == Distinct(posts, d)
    requires live(d) && StoredAt(keys, live, file, offsets, filters, d)
    requires list in Alternatives(need) && forall key :: key in list ==> Posting(d, key) in posts
    ensures Admitted(file[offsets[d]..offsets[d + 1]], need)
  {
    hide Serialized, FilterFor, Distinct, Eval, Admitted, Alternatives;
    DistinctKeys(posts, d);
    var test := MemberTest(keys.Of(d));
    assert AllPass(list, test);
    EvalIsSomePass(need, test);
    NoLostMatch(filters[d], keys.Of(d), need);
  }

  /** Inclusion of one sorted list in another; neither index ever goes back. */
  method Subset(small: seq<nat>, large: seq<nat>) returns (r: bool)
    requires forall i, j :: 0 <= i < j < |small| ==> small[i] <= small[j]
    requires forall i, j :: 0 <= i < j < |large| ==> large[i] <= large[j]
    ensures r <==> forall x :: x in small ==> x in large
  {
    var at := 0;
    for i := 0 to |small|
      invariant at <= |large|
      invariant forall j :: 0 <= j < i ==> small[j] in large
      invariant forall j, k :: 0 <= j < at && i <= k < |small| ==> large[j] < small[k] || large[j] == small[k]
      invariant at > 0 ==> forall j, k :: 0 <= j < at && i <= k < |small| ==> large[j] < small[k]
    {
      while at < |large| && large[at] < small[i]
        invariant at <= |large|
        invariant forall j, k :: 0 <= j < at && i <= k < |small| ==> large[j] < small[k]
      {
        at := at + 1;
      }
      if !(at < |large| && large[at] == small[i]) {
        assert small[i] !in large;
        return false;
      }
    }
    r := true;
  }
}
