/** The interned name dictionary: four passes over row chunks and name ranges
    that must come to what one plain sort gives. */
module ResidentNames {
  import opened Bits
  import opened Sorting
  import opened NameOrder
  import opened Scatter

  /** Distinct names, each row's key, and each name's rows. */
  datatype Dictionary = Dictionary(distinct: seq<Name>, keys: seq<nat>, postings: seq<seq<nat>>)

  predicate StrictNames(s: seq<Name>) {
    forall i, j :: 0 <= i < j < |s| ==> NameLt(s[i], s[j])
  }

  /** Distinct names in order, a row's key the rank of its name, and exactly the
      rows with a name, ascending, posted under it. */
  ghost predicate IsDictionary(names: seq<Name>, d: Dictionary) {
    && StrictNames(d.distinct)
    && |d.keys| == |names| && (forall row :: 0 <= row < |names| ==> d.keys[row] < |d.distinct| && d.distinct[d.keys[row]] == names[row])
    && |d.postings| == |d.distinct|
    && forall k :: 0 <= k < |d.distinct| ==> Posts(names, d.distinct[k], d.postings[k])
  }

  /** Exactly the rows with this name, of which there is one. */
  ghost predicate Posts(names: seq<Name>, name: Name, rows: seq<nat>) {
    && Ascending(rows) && rows != []
    && forall row: nat :: row in rows <==> row < |names| && names[row] == name
  }

  /** There is one dictionary for a list of names, however it is built. */
  lemma OneDictionary(names: seq<Name>, a: Dictionary, b: Dictionary)
    requires IsDictionary(names, a) && IsDictionary(names, b)
    ensures a == b
  {
    hide Posts;
    forall name: Name
      ensures name in a.distinct <==> name in names
      ensures name in b.distinct <==> name in names
    {
      DistinctNames(names, a, name);
      DistinctNames(names, b, name);
    }
    StrictUnique(a.distinct, b.distinct);
    forall row | 0 <= row < |names|
      ensures a.keys[row] == b.keys[row]
    {
      assert a.distinct[a.keys[row]] == b.distinct[b.keys[row]];
    }
    forall k | 0 <= k < |a.distinct|
      ensures a.postings[k] == b.postings[k]
    {
      PostsUnique(names, a.distinct[k], a.postings[k], b.postings[k]);
    }
  }

  lemma DistinctNames(names: seq<Name>, d: Dictionary, name: Name)
    requires IsDictionary(names, d)
    ensures name in d.distinct <==> name in names
  {
    if name in d.distinct {
      var k :| 0 <= k < |d.distinct| && d.distinct[k] == name;
      assert d.postings[k][0] in d.postings[k];
    }
    if name in names {
      var row :| 0 <= row < |names| && names[row] == name;
      assert d.distinct[d.keys[row]] == name;
    }
  }

  lemma PostsUnique(names: seq<Name>, name: Name, a: seq<nat>, b: seq<nat>)
    requires Posts(names, name, a) && Posts(names, name, b)
    ensures a == b
  {
    AscendingUnique(a, b);
  }

  lemma {:induction false} StrictUnique(a: seq<Name>, b: seq<Name>)
    requires StrictNames(a) && StrictNames(b) && forall x :: x in a <==> x in b
    ensures a == b
  {
    NoElements(a);
    NoElements(b);
    if a != [] {
      assert a[0] in b && b[0] in a;
      var i :| 0 <= i < |b| && b[i] == a[0];
      var j :| 0 <= j < |a| && a[j] == b[0];
      if i > 0 && j > 0 {
        NameAntisymmetric(a[0], b[0]);
      }
      forall x
        ensures x in a[1..] <==> x in b[1..]
      {
        assert x in a[1..] ==> x in a && x != a[0];
        assert x in b[1..] ==> x in b && x != b[0];
      }
      StrictUnique(a[1..], b[1..]);
    }
  }

  // ---- rows in chunks ----

  /** Each row's part. */
  function PartsOf(names: seq<Name>, splitters: seq<nat>): seq<nat> {
    seq(|names|, i requires 0 <= i < |names| => PartOf(splitters, Prefix(names[i])))
  }

  /** Where chunks begin and end. */
  ghost predicate IsCuts(cuts: seq<nat>, total: nat) {
    && |cuts| >= 1 && cuts[0] == 0 && cuts[|cuts| - 1] == total
    && forall c: nat :: c + 1 < |cuts| ==> CutBefore(cuts, c)
  }

  ghost predicate CutBefore(cuts: seq<nat>, c: nat)
    requires c + 1 < |cuts|
  {
    cuts[c] <= cuts[c + 1]
  }

  lemma {:induction false} CutsRise(cuts: seq<nat>, total: nat, i: nat, j: nat)
    requires IsCuts(cuts, total) && i <= j < |cuts|
    ensures cuts[i] <= cuts[j] <= total
    decreases |cuts| - i, |cuts| - j
  {
    if i < j {
      assert CutBefore(cuts, i);
      CutsRise(cuts, total, i + 1, j);
    } else if j + 1 < |cuts| {
      assert CutBefore(cuts, j);
      CutsRise(cuts, total, j + 1, j + 1);
    }
  }

  /** Rows in runs of `chunk`, the last one perhaps shorter. */
  method Chunks(total: nat, chunk: nat) returns (cuts: seq<nat>)
    requires chunk >= 1
    ensures IsCuts(cuts, total)
  {
    cuts := [0];
    var at: nat := 0;
    while at < total
      invariant at <= total && |cuts| >= 1 && cuts[0] == 0 && cuts[|cuts| - 1] == at
      invariant forall c: nat :: c + 1 < |cuts| ==> CutBefore(cuts, c)
    {
      var end := if total - at < chunk then total else at + chunk;
      ghost var was := cuts;
      cuts := cuts + [end];
      forall c: nat | c + 1 < |cuts|
        ensures CutBefore(cuts, c)
      {
        assert c + 1 < |was| ==> CutBefore(was, c);
      }
      at := end;
    }
  }

  /** Each chunk's count for each part. */
  ghost predicate Counted(counts: seq<seq<nat>>, keys: seq<nat>, cuts: seq<nat>, parts: nat, chunks: nat)
    requires IsCuts(cuts, |keys|) && chunks < |cuts|
  {
    |counts| == chunks && forall c: nat :: c < chunks ==> CountedAt(counts, keys, cuts, parts, c)
  }

  ghost predicate CountedAt(counts: seq<seq<nat>>, keys: seq<nat>, cuts: seq<nat>, parts: nat, c: nat)
    requires c < |counts| && c + 1 < |cuts|
  {
    |counts[c]| == parts && Tallied(counts[c], keys, cuts[c], cuts[c + 1])
  }

  /** The first pass: parts by binary search, counted chunk by chunk. */
  method Assign(names: seq<Name>, splitters: seq<nat>, parts: nat, cuts: seq<nat>)
    returns (part: array<U8>, counts: seq<seq<nat>>)
    requires 1 <= parts <= 255 && Rising(splitters) && |splitters| < parts && IsCuts(cuts, |names|)
    ensures fresh(part) && part[..] == PartsOf(names, splitters) && Below(part[..], parts)
    ensures Counted(counts, part[..], cuts, parts, |cuts| - 1)
  {
    hide *;
    ghost var keys := PartsOf(names, splitters);
    PartsBelow(names, splitters, parts);
    CutsEnds(cuts, |names|);
    part := new U8[|names|];
    counts := [];
    CountedNone(keys, cuts, parts);
    for c := 0 to |cuts| - 1
      invariant Counted(counts, keys, cuts, parts, c)
      invariant cuts[c] <= |names| && part[..cuts[c]] == keys[..cuts[c]]
    {
      CutsRise(cuts, |names|, c, c + 1);
      var tally := seq(parts, _ => 0);
      TalliedNone(tally, keys, cuts[c]);
      for i := cuts[c] to cuts[c + 1]
        invariant |tally| == parts && Tallied(tally, keys, cuts[c], i)
        invariant part[..i] == keys[..i]
      {
        PartsAt(names, splitters, i);
        PartsLess(keys, parts, i);
        var p := PartitionPoint(splitters, Prefix(names[i]));
        TalliedStep(tally, keys, cuts[c], i);
        part[i] := p;
        tally := tally[p := tally[p] + 1];
      }
      CountedPush(counts, keys, cuts, parts, c, tally);
      counts := counts + [tally];
    }
    assert part[..] == part[..|names|] && keys == keys[..|names|];
  }

  lemma PartsBelow(names: seq<Name>, splitters: seq<nat>, parts: nat)
    requires |splitters| < parts
    ensures |PartsOf(names, splitters)| == |names| && Below(PartsOf(names, splitters), parts)
  {
  }

  lemma PartsAt(names: seq<Name>, splitters: seq<nat>, i: nat)
    requires i < |names|
    ensures |PartsOf(names, splitters)| == |names| && PartsOf(names, splitters)[i] == PartOf(splitters, Prefix(names[i]))
  {
  }

  lemma PartsLess(keys: seq<nat>, parts: nat, i: nat)
    requires Below(keys, parts) && i < |keys|
    ensures keys[i] < parts
  {
  }

  lemma CutsEnds(cuts: seq<nat>, total: nat)
    requires IsCuts(cuts, total)
    ensures |cuts| >= 1 && cuts[0] == 0 && cuts[|cuts| - 1] == total
  {
  }

  lemma CountedNone(keys: seq<nat>, cuts: seq<nat>, parts: nat)
    requires IsCuts(cuts, |keys|)
    ensures Counted([], keys, cuts, parts, 0)
  {
  }

  lemma CountedPush(counts: seq<seq<nat>>, keys: seq<nat>, cuts: seq<nat>, parts: nat, c: nat, tally: seq<nat>)
    requires IsCuts(cuts, |keys|) && c + 1 < |cuts| && Counted(counts, keys, cuts, parts, c)
    requires |tally| == parts && Tallied(tally, keys, cuts[c], cuts[c + 1])
    ensures Counted(counts + [tally], keys, cuts, parts, c + 1)
  {
    hide Tallied;
    var after := counts + [tally];
    forall d: nat | d < c + 1
      ensures CountedAt(after, keys, cuts, parts, d)
    {
      assert d < c ==> CountedAt(counts, keys, cuts, parts, d);
    }
  }

  lemma CountedIs(counts: seq<seq<nat>>, keys: seq<nat>, cuts: seq<nat>, parts: nat, c: nat, p: nat)
    requires IsCuts(cuts, |keys|) && Counted(counts, keys, cuts, parts, |cuts| - 1) && c + 1 < |cuts| && p < parts
    ensures |counts| == |cuts| - 1 && |counts[c]| == parts && cuts[c] <= cuts[c + 1] <= |keys|
    ensures counts[c][p] + Count(keys[..cuts[c]], p) == Count(keys[..cuts[c + 1]], p)
  {
    hide Count;
    assert CountedAt(counts, keys, cuts, parts, c);
    assert TalliedAt(counts[c], keys, cuts[c], cuts[c + 1], p);
  }

  /** Each part's size: its chunks' counts together. */
  method Sizes(counts: seq<seq<nat>>, parts: nat, cuts: seq<nat>, ghost keys: seq<nat>) returns (sizes: seq<nat>)
    requires IsCuts(cuts, |keys|) && Counted(counts, keys, cuts, parts, |cuts| - 1)
    ensures |sizes| == parts && forall p :: 0 <= p < parts ==> sizes[p] == Count(keys, p)
  {
    hide *;
    CutsEnds(cuts, |keys|);
    assert keys[..|keys|] == keys;
    sizes := [];
    for p := 0 to parts
      invariant |sizes| == p && forall q :: 0 <= q < p ==> sizes[q] == Count(keys, q)
    {
      var sum: nat := 0;
      CountNothing(keys, p);
      for c := 0 to |cuts| - 1
        invariant cuts[c] <= |keys| && sum == Count(keys[..cuts[c]], p)
      {
        CountedIs(counts, keys, cuts, parts, c, p);
        sum := sum + counts[c][p];
      }
      sizes := sizes + [sum];
    }
  }

  lemma CountNothing(keys: seq<nat>, p: nat)
    ensures Count(keys[..0], p) == 0
  {
  }

  function Ids(n: nat): seq<nat> {
    seq(n, i requires 0 <= i < n => i)
  }

  /** Where a chunk's rows of each part go: after earlier parts, and after
      earlier chunks' rows of the part. */
  ghost predicate Slotted(slot: seq<nat>, keys: seq<nat>, at: nat) {
    at <= |keys| && forall p: nat :: p < |slot| ==> SlottedAt(slot, keys, at, p)
  }

  ghost predicate SlottedAt(slot: seq<nat>, keys: seq<nat>, at: nat, p: nat)
    requires at <= |keys| && p < |slot|
  {
    slot[p] == Before(keys, p) + Count(keys[..at], p)
  }

  lemma SlottedPush(slot: seq<nat>, keys: seq<nat>, at: nat, x: nat)
    requires Slotted(slot, keys, at) && x == Before(keys, |slot|) + Count(keys[..at], |slot|)
    ensures Slotted(slot + [x], keys, at)
  {
    hide Before, Count;
    forall p: nat | p < |slot + [x]|
      ensures SlottedAt(slot + [x], keys, at, p)
    {
      assert p < |slot| ==> SlottedAt(slot, keys, at, p);
    }
  }

  /** With a chunk's rows so far counted, the next slot of a row's part is the row's place. */
  lemma SlotIsPlace(slot: seq<nat>, next: seq<nat>, keys: seq<nat>, at: nat, i: nat)
    requires Slotted(slot, keys, at) && Tallied(next, keys, at, i) && i < |keys| && keys[i] < |slot| == |next|
    ensures slot[keys[i]] + next[keys[i]] == Place(keys, i)
  {
    hide Before, Count;
    assert SlottedAt(slot, keys, at, keys[i]);
    assert TalliedAt(next, keys, at, i, keys[i]);
  }

  /** Cuts the rows' array into each chunk's slots. */
  method Slots(counts: seq<seq<nat>>, parts: nat, cuts: seq<nat>, ghost keys: seq<nat>) returns (slots: seq<seq<nat>>)
    requires IsCuts(cuts, |keys|) && Counted(counts, keys, cuts, parts, |cuts| - 1)
    ensures |slots| == |cuts| - 1
    ensures forall c :: 0 <= c < |slots| ==> |slots[c]| == parts && Slotted(slots[c], keys, cuts[c])
  {
    hide *;
    CutsEnds(cuts, |keys|);
    CutsAll(cuts, |keys|);
    assert keys[..|keys|] == keys;
    slots := seq(|cuts| - 1, _ => []);
    var at: nat := 0;
    SlotsNone(slots, keys, cuts);
    for p := 0 to parts
      invariant |slots| == |cuts| - 1 && at == Before(keys, p)
      invariant forall c :: 0 <= c < |slots| ==> |slots[c]| == p && Slotted(slots[c], keys, cuts[c])
    {
      CountNothing(keys, p);
      for c := 0 to |cuts| - 1
        invariant |slots| == |cuts| - 1 && cuts[c] <= |keys| && at == Before(keys, p) + Count(keys[..cuts[c]], p)
        invariant forall d :: 0 <= d < c ==> |slots[d]| == p + 1 && Slotted(slots[d], keys, cuts[d])
        invariant forall d :: c <= d < |slots| ==> |slots[d]| == p && Slotted(slots[d], keys, cuts[d])
      {
        CountedIs(counts, keys, cuts, parts, c, p);
        SlottedPush(slots[c], keys, cuts[c], at);
        slots := slots[c := slots[c] + [at]];
        at := at + counts[c][p];
      }
      BeforeNext(keys, p);
    }
  }

  lemma BeforeNext(keys: seq<nat>, p: nat)
    ensures Before(keys, 0) == 0
    ensures Before(keys, p + 1) == Before(keys, p) + Count(keys, p)
  {
  }

  lemma CutsAll(cuts: seq<nat>, total: nat)
    requires IsCuts(cuts, total)
    ensures forall c :: 0 <= c < |cuts| ==> cuts[c] <= total
  {
    forall c | 0 <= c < |cuts|
      ensures cuts[c] <= total
    {
      CutsRise(cuts, total, c, c);
    }
  }

  lemma SlotsNone(slots: seq<seq<nat>>, keys: seq<nat>, cuts: seq<nat>)
    requires |slots| <= |cuts| && forall c :: 0 <= c < |slots| ==> slots[c] == [] && cuts[c] <= |keys|
    ensures forall c :: 0 <= c < |slots| ==> Slotted(slots[c], keys, cuts[c])
    ensures Before(keys, 0) == 0
  {
  }

  /** The second pass: every row id scattered to its part's segment, in order. */
  method Group(part: array<U8>, counts: seq<seq<nat>>, parts: nat, cuts: seq<nat>) returns (byPart: array<nat>)
    requires Below(part[..], parts) && IsCuts(cuts, part.Length) && Counted(counts, part[..], cuts, parts, |cuts| - 1)
    ensures fresh(byPart) && byPart.Length == part.Length
    ensures var keys := part[..]; forall p: nat :: p < parts ==> Segment(byPart[..], Before(keys, p), Of(Ids(|keys|), keys, p))
  {
    hide *;
    ghost var keys: seq<nat> := part[..];
    ghost var ids := Ids(|keys|);
    IdsAre(|keys|);
    CutsEnds(cuts, |keys|);
    byPart := new nat[part.Length];
    var slots := Slots(counts, parts, cuts, keys);
    GroupedNone(byPart[..], 0, ids, keys, parts);
    for c := 0 to |cuts| - 1
      invariant cuts[c] <= |keys| && Grouped(byPart[..], 0, ids, keys, parts, cuts[c])
    {
      CutsRise(cuts, |keys|, c, c + 1);
      var next := seq(parts, _ => 0);
      TalliedNone(next, keys, cuts[c]);
      for i := cuts[c] to cuts[c + 1]
        invariant |next| == parts && Tallied(next, keys, cuts[c], i)
        invariant Grouped(byPart[..], 0, ids, keys, parts, i)
      {
        var p := part[i];
        PartsLess(keys, parts, i);
        SlotIsPlace(slots[c], next, keys, cuts[c], i);
        GroupedStep(byPart[..], 0, ids, keys, parts, i);
        TalliedStep(next, keys, cuts[c], i);
        ghost var was := byPart[..];
        byPart[slots[c][p] + next[p]] := i;
        assert byPart[..] == was[Place(keys, i) := i];
        next := next[p := next[p] + 1];
      }
    }
    GroupedAll(byPart[..], 0, ids, keys, parts);
  }

  lemma IdsAre(n: nat)
    ensures |Ids(n)| == n && Ascending(Ids(n)) && forall i :: 0 <= i < n ==> Ids(n)[i] == i
  {
  }

  /** The last pass: local keys gathered back into row order and shifted. */
  method Keys(part: array<U8>, counts: seq<seq<nat>>, parts: nat, cuts: seq<nat>, sizes: seq<nat>, byPart: array<nat>, firsts: seq<nat>)
    returns (ids: array<nat>)
    requires Below(part[..], parts) && IsCuts(cuts, part.Length) && Counted(counts, part[..], cuts, parts, |cuts| - 1)
    requires byPart.Length == part.Length && |firsts| == parts == |sizes|
    requires forall p :: 0 <= p < parts ==> sizes[p] == Count(part[..], p)
    ensures fresh(ids) && ids.Length == part.Length
    ensures var keys := part[..];
      forall i: nat :: i < |keys| ==> KeyAt(ids[..], keys, byPart[..], firsts, i)
  {
    hide *;
    ghost var keys: seq<nat> := part[..];
    CutsEnds(cuts, |keys|);
    ids := new nat[part.Length];
    ghost var local := byPart[..];
    var starts := Starts(sizes, keys);
    for c := 0 to |cuts| - 1
      invariant cuts[c] <= |keys| && |starts| == parts && Slotted(starts, keys, cuts[c])
      invariant byPart[..] == local && part[..] == keys
      invariant forall i: nat :: i < cuts[c] ==> KeyAt(ids[..], keys, local, firsts, i)
    {
      CutsRise(cuts, |keys|, c, c + 1);
      var next := starts;
      for i := cuts[c] to cuts[c + 1]
        invariant |next| == parts && Slotted(next, keys, i)
        invariant byPart[..] == local && part[..] == keys
        invariant forall j: nat :: j < i ==> KeyAt(ids[..], keys, local, firsts, j)
      {
        var p := part[i];
        PartsLess(keys, parts, i);
        NextIsPlace(next, keys, parts, i);
        ghost var was := ids[..];
        ids[i] := firsts[p] + byPart[next[p]];
        KeysKept(was, ids[..], keys, local, firsts, i);
        SlottedStep(next, keys, i);
        next := next[p := next[p] + 1];
      }
      starts := Advance(starts, counts, parts, cuts, c, keys);
    }
  }

  /** A row's global key is its part's first plus the local key in its place. */
  ghost predicate KeyAt(ids: seq<nat>, keys: seq<nat>, local: seq<nat>, firsts: seq<nat>, i: nat) {
    && i < |ids| && i < |keys| && keys[i] < |firsts| && Place(keys, i) < |local|
    && ids[i] == firsts[keys[i]] + local[Place(keys, i)]
  }

  lemma KeysKept(was: seq<nat>, ids: seq<nat>, keys: seq<nat>, local: seq<nat>, firsts: seq<nat>, i: nat)
    requires |was| == |ids| == |keys| && i < |keys| && keys[i] < |firsts| && Place(keys, i) < |local|
    requires ids == was[i := firsts[keys[i]] + local[Place(keys, i)]]
    requires forall j: nat :: j < i ==> KeyAt(was, keys, local, firsts, j)
    ensures forall j: nat :: j < i + 1 ==> KeyAt(ids, keys, local, firsts, j)
  {
    hide Place;
    forall j: nat | j < i + 1
      ensures KeyAt(ids, keys, local, firsts, j)
    {
      assert j < i ==> KeyAt(was, keys, local, firsts, j);
    }
  }

  lemma NextIsPlace(next: seq<nat>, keys: seq<nat>, parts: nat, i: nat)
    requires Slotted(next, keys, i) && i < |keys| && |next| == parts && Below(keys, parts)
    ensures next[keys[i]] == Place(keys, i) < |keys|
  {
    hide Before, Count;
    assert SlottedAt(next, keys, i, keys[i]);
    PlaceBelow(keys, parts, i);
  }

  lemma SlottedStep(next: seq<nat>, keys: seq<nat>, i: nat)
    requires Slotted(next, keys, i) && i < |keys| && keys[i] < |next|
    ensures Slotted(next[keys[i] := next[keys[i]] + 1], keys, i + 1)
  {
    hide Before, Count;
    var after, to := next[keys[i] := next[keys[i]] + 1], i + 1;
    forall p: nat | p < |after|
      ensures SlottedAt(after, keys, to, p)
    {
      assert SlottedAt(next, keys, i, p);
      CountNext(keys, i, p);
    }
  }

  /** Where each part begins: earlier parts' sizes together. */
  method Starts(sizes: seq<nat>, ghost keys: seq<nat>) returns (starts: seq<nat>)
    requires forall p :: 0 <= p < |sizes| ==> sizes[p] == Count(keys, p)
    ensures |starts| == |sizes| && Slotted(starts, keys, 0)
    ensures forall p :: 0 <= p < |sizes| ==> starts[p] == Before(keys, p)
  {
    hide *;
    starts := [];
    var at: nat := 0;
    BeforeNext(keys, 0);
    SlottedEmpty(keys);
    for p := 0 to |sizes|
      invariant |starts| == p && Slotted(starts, keys, 0) && at == Before(keys, p)
      invariant forall q :: 0 <= q < p ==> starts[q] == Before(keys, q)
    {
      CountNothing(keys, p);
      SlottedPush(starts, keys, 0, at);
      BeforeNext(keys, p);
      starts := starts + [at];
      at := at + sizes[p];
    }
  }

  lemma SlottedEmpty(keys: seq<nat>)
    ensures Slotted([], keys, 0)
  {
  }

  /** Moves every part's start past a chunk. */
  method Advance(starts: seq<nat>, counts: seq<seq<nat>>, parts: nat, cuts: seq<nat>, c: nat, ghost keys: seq<nat>) returns (moved: seq<nat>)
    requires IsCuts(cuts, |keys|) && Counted(counts, keys, cuts, parts, |cuts| - 1) && c + 1 < |cuts|
    requires |starts| == parts && Slotted(starts, keys, cuts[c])
    ensures |moved| == parts && Slotted(moved, keys, cuts[c + 1])
  {
    hide *;
    moved := [];
    CutsRise(cuts, |keys|, c, c + 1);
    SlottedNil(keys, cuts[c + 1]);
    for p := 0 to parts
      invariant |moved| == p && Slotted(moved, keys, cuts[c + 1])
    {
      CountedIs(counts, keys, cuts, parts, c, p);
      SlottedIs(starts, keys, cuts[c], p);
      SlottedPush(moved, keys, cuts[c + 1], starts[p] + counts[c][p]);
      moved := moved + [starts[p] + counts[c][p]];
    }
  }

  lemma SlottedNil(keys: seq<nat>, at: nat)
    requires at <= |keys|
    ensures Slotted([], keys, at)
  {
  }

  lemma SlottedIs(slot: seq<nat>, keys: seq<nat>, at: nat, p: nat)
    requires Slotted(slot, keys, at) && p < |slot|
    ensures slot[p] == Before(keys, p) + Count(keys[..at], p)
  {
    assert SlottedAt(slot, keys, at, p);
  }

  // ---- one part ----

  /** A name and the key it was first seen under. */
  datatype Seen = Seen(name: Name, first: nat)

  predicate SeenLe(a: Seen, b: Seen) {
    if a.name == b.name then a.first <= b.first else PrefixThenName(a.name, b.name)
  }

  lemma SeenOrder()
    ensures TotalOrder(SeenLe)
  {
    hide PrefixThenName;
    forall a: Seen, b: Seen
      ensures SeenLe(a, b) || SeenLe(b, a)
      ensures SeenLe(a, b) && SeenLe(b, a) ==> a == b
    {
      SeenIs(a, b);
      SeenIs(b, a);
      NameTotal(a.name, b.name);
      if SeenLe(a, b) && SeenLe(b, a) && a.name != b.name {
        NameAntisymmetric(a.name, b.name);
      }
    }
    forall a: Seen, b: Seen, c: Seen | SeenLe(a, b) && SeenLe(b, c)
      ensures SeenLe(a, c)
    {
      SeenIs(a, b);
      SeenIs(b, c);
      SeenIs(a, c);
      NameTransitive(a.name, b.name, c.name);
      if a.name == c.name {
        NameAntisymmetric(a.name, b.name);
      }
    }
  }

  lemma {:induction false} NameReflexive(a: Name)
    ensures NameLe(a, a)
  {
    if a != [] {
      NameReflexive(a[1..]);
    }
  }

  lemma SeenIs(a: Seen, b: Seen)
    ensures SeenLe(a, b) <==> NameLe(a.name, b.name) && (a.name == b.name ==> a.first <= b.first)
  {
    NameReflexive(a.name);
    PrefixThenNameIsNameLe(a.name, b.name);
  }

  /** Names interned in the order they are first met. */
  ghost predicate Interned(lookup: map<Name, nat>, met: seq<Name>) {
    && |met| == |lookup|
    && (forall v: nat :: v < |met| ==> met[v] in lookup && lookup[met[v]] == v)
    && forall name :: name in lookup ==> lookup[name] < |met| && met[lookup[name]] == name
  }

  /** Each row's key stands for its name. */
  ghost predicate KeysName(names: seq<Name>, rows: seq<nat>, keys: seq<nat>, of: seq<Name>) {
    && |keys| == |rows|
    && forall j: nat :: j < |rows| ==> rows[j] < |names| && keys[j] < |of| && of[keys[j]] == names[rows[j]]
  }

  /** Every name met is some row's. */
  ghost predicate MetFrom(names: seq<Name>, rows: seq<nat>, met: seq<Name>) {
    forall v :: 0 <= v < |met| ==> exists j :: 0 <= j < |rows| && rows[j] < |names| && names[rows[j]] == met[v]
  }

  /** Interns the names of some rows: a key each, and each name met once. */
  method Intern(names: seq<Name>, rows: seq<nat>) returns (met: seq<Name>, keys: seq<nat>)
    requires forall j :: 0 <= j < |rows| ==> rows[j] < |names|
    ensures KeysName(names, rows, keys, met)
    ensures forall v, w :: 0 <= v < w < |met| ==> met[v] != met[w]
    ensures MetFrom(names, rows, met)
  {
    var lookup: map<Name, nat> := map[];
    met, keys := [], [];
    for i := 0 to |rows|
      invariant Interned(lookup, met) && KeysName(names, rows[..i], keys, met)
      invariant forall v :: 0 <= v < |met| ==> exists j :: 0 <= j < i && names[rows[j]] == met[v]
    {
      var name := names[rows[i]];
      InternStep(names, rows, i, lookup, met, keys);
      if name !in lookup {
        lookup := lookup[name := |lookup|];
        met := met + [name];
      }
      keys := keys + [lookup[name]];
    }
    assert rows[..|rows|] == rows;
    InternedOnce(lookup, met);
  }

  lemma InternedOnce(lookup: map<Name, nat>, met: seq<Name>)
    requires Interned(lookup, met)
    ensures forall v, w :: 0 <= v < w < |met| ==> met[v] != met[w]
  {
  }

  lemma InternStep(names: seq<Name>, rows: seq<nat>, i: nat, lookup: map<Name, nat>, met: seq<Name>, keys: seq<nat>)
    requires i < |rows| && rows[i] < |names| && Interned(lookup, met) && KeysName(names, rows[..i], keys, met)
    ensures var name := names[rows[i]];
      var lookup' := if name in lookup then lookup else lookup[name := |lookup|];
      var met' := if name in lookup then met else met + [name];
      Interned(lookup', met') && KeysName(names, rows[..i + 1], keys + [lookup'[name]], met')
  {
    var name := names[rows[i]];
    assert rows[..i + 1] == rows[..i] + [rows[i]];
    if name !in lookup {
      assert |lookup[name := |lookup|]| == |lookup| + 1 by {
        assert lookup[name := |lookup|].Keys == lookup.Keys + {name};
        assert |lookup.Keys| == |lookup| && |lookup[name := |lookup|].Keys| == |lookup[name := |lookup|]|;
      }
    }
  }

  function SeenAll(met: seq<Name>): seq<Seen> {
    seq(|met|, v requires 0 <= v < |met| => Seen(met[v], v))
  }

  /** Sorts the distinct names and moves every key to its name's place. */
  method Rank(names: seq<Name>, rows: seq<nat>, met: seq<Name>, keys: seq<nat>) returns (distinct: seq<Name>, ranked: seq<nat>)
    requires KeysName(names, rows, keys, met)
    requires forall v, w :: 0 <= v < w < |met| ==> met[v] != met[w]
    ensures StrictNames(distinct) && (forall x :: x in distinct <==> x in met)
    ensures KeysName(names, rows, ranked, distinct)
  {
    hide *;
    SeenOrder();
    SortSorted(SeenAll(met), SeenLe);
    var sorted := Sort(SeenAll(met), SeenLe);
    SortedOnce(met, sorted);
    distinct := seq(|sorted|, k requires 0 <= k < |sorted| => sorted[k].name);
    var remap := new nat[|sorted|];
    MovedNone(remap[..], sorted);
    for k := 0 to |sorted|
      invariant Moved(remap[..], sorted, k)
    {
      MovedStep(remap[..], met, sorted, k);
      ghost var was := remap[..];
      remap[sorted[k].first] := k;
      assert remap[..] == was[sorted[k].first := k];
    }
    ranked := [];
    RankNone(names, rows, keys, met, distinct);
    for j := 0 to |keys|
      invariant Moved(remap[..], sorted, |sorted|) && KeysName(names, rows[..j], ranked, distinct)
    {
      RankStep(names, rows, keys, met, sorted, distinct, remap[..], j, ranked);
      ranked := ranked + [remap[keys[j]]];
    }
    RankDone(names, rows, keys, met);
  }

  /** Sorting the distinct names keeps each once, in order. */
  ghost predicate SortsMet(met: seq<Name>, sorted: seq<Seen>) {
    && |sorted| == |met|
    && (forall k: nat :: k < |sorted| ==> sorted[k].first < |met| && met[sorted[k].first] == sorted[k].name)
    && (forall v: nat :: v < |met| ==> Seen(met[v], v) in sorted)
    && forall k, l :: 0 <= k < l < |sorted| ==> NameLt(sorted[k].name, sorted[l].name) && sorted[k].first != sorted[l].first
  }

  lemma SortedOnce(met: seq<Name>, sorted: seq<Seen>)
    requires forall v, w :: 0 <= v < w < |met| ==> met[v] != met[w]
    requires SortedBy(sorted, SeenLe) && multiset(sorted) == multiset(SeenAll(met)) && |sorted| == |SeenAll(met)|
    requires forall x :: x in sorted <==> x in SeenAll(met)
    ensures SortsMet(met, sorted)
    ensures var distinct := seq(|sorted|, k requires 0 <= k < |sorted| => sorted[k].name);
      StrictNames(distinct) && forall x :: x in distinct <==> x in met
  {
    hide NameLe, SeenLe;
    var all := SeenAll(met);
    forall k: nat | k < |sorted|
      ensures sorted[k].first < |met| && met[sorted[k].first] == sorted[k].name
    {
      assert sorted[k] in all;
    }
    forall v: nat | v < |met|
      ensures Seen(met[v], v) in sorted
    {
      assert all[v] in all;
    }
    forall k, l | 0 <= k < l < |sorted|
      ensures NameLt(sorted[k].name, sorted[l].name) && sorted[k].first != sorted[l].first
    {
      SeenIs(sorted[k], sorted[l]);
      NoTwice(met, sorted, k, l);
    }
    var distinct := seq(|sorted|, k requires 0 <= k < |sorted| => sorted[k].name);
    forall x | x in met
      ensures x in distinct
    {
      var v :| 0 <= v < |met| && met[v] == x;
      var k :| 0 <= k < |sorted| && sorted[k] == Seen(met[v], v);
      assert distinct[k] == x;
    }
  }

  /** Nothing met once is in the sorted list twice. */
  lemma NoTwice(met: seq<Name>, sorted: seq<Seen>, k: nat, l: nat)
    requires forall v, w :: 0 <= v < w < |met| ==> met[v] != met[w]
    requires multiset(sorted) == multiset(SeenAll(met)) && k < l < |sorted|
    requires forall k: nat :: k < |sorted| ==> sorted[k].first < |met| && met[sorted[k].first] == sorted[k].name
    ensures sorted[k].name != sorted[l].name && sorted[k].first != sorted[l].first
  {
    if sorted[k] == sorted[l] {
      TwiceIn(sorted, k, l);
      OnceIn(met, |met|, sorted[k]);
    }
  }

  lemma TwiceIn(s: seq<Seen>, i: nat, j: nat)
    requires i < j < |s| && s[i] == s[j]
    ensures multiset(s)[s[i]] >= 2
  {
    assert s == s[..i] + [s[i]] + s[i + 1..j] + [s[j]] + s[j + 1..];
  }

  lemma {:induction false} OnceIn(met: seq<Name>, n: nat, x: Seen)
    requires n <= |met|
    ensures multiset(SeenAll(met)[..n])[x] <= 1
    ensures x.first >= n ==> multiset(SeenAll(met)[..n])[x] == 0
    ensures SeenAll(met)[..|met|] == SeenAll(met)
  {
    if n > 0 {
      OnceIn(met, n - 1, x);
      assert SeenAll(met)[..n] == SeenAll(met)[..n - 1] + [SeenAll(met)[n - 1]];
    }
  }

  ghost predicate Moved(remap: seq<nat>, sorted: seq<Seen>, k: nat) {
    && |remap| == |sorted| && k <= |sorted|
    && forall l: nat :: l < k ==> MovedAt(remap, sorted, l)
  }

  ghost predicate MovedAt(remap: seq<nat>, sorted: seq<Seen>, l: nat)
    requires l < |sorted|
  {
    sorted[l].first < |remap| && remap[sorted[l].first] == l
  }

  lemma MovedNone(remap: seq<nat>, sorted: seq<Seen>)
    requires |remap| == |sorted|
    ensures Moved(remap, sorted, 0)
  {
  }

  lemma MovedStep(remap: seq<nat>, met: seq<Name>, sorted: seq<Seen>, k: nat)
    requires SortsMet(met, sorted) && Moved(remap, sorted, k) && k < |sorted|
    ensures sorted[k].first < |remap| && Moved(remap[sorted[k].first := k], sorted, k + 1)
  {
    hide NameLt;
    var after, to := remap[sorted[k].first := k], k + 1;
    forall l: nat | l < to
      ensures MovedAt(after, sorted, l)
    {
      if l < k {
        assert MovedAt(remap, sorted, l);
        assert sorted[l].first != sorted[k].first;
      }
    }
  }

  lemma RankNone(names: seq<Name>, rows: seq<nat>, keys: seq<nat>, met: seq<Name>, distinct: seq<Name>)
    requires KeysName(names, rows, keys, met)
    ensures |keys| == |rows| && KeysName(names, rows[..0], [], distinct)
  {
  }

  lemma RankStep(names: seq<Name>, rows: seq<nat>, keys: seq<nat>, met: seq<Name>, sorted: seq<Seen>, distinct: seq<Name>,
                 remap: seq<nat>, j: nat, ranked: seq<nat>)
    requires KeysName(names, rows, keys, met) && SortsMet(met, sorted) && Moved(remap, sorted, |sorted|) && j < |keys|
    requires distinct == seq(|sorted|, k requires 0 <= k < |sorted| => sorted[k].name)
    requires KeysName(names, rows[..j], ranked, distinct)
    ensures keys[j] < |remap| && j < |rows| && KeysName(names, rows[..j + 1], ranked + [remap[keys[j]]], distinct)
  {
    hide NameLt;
    var v := keys[j];
    var l :| 0 <= l < |sorted| && sorted[l] == Seen(met[v], v);
    assert MovedAt(remap, sorted, l);
    assert rows[..j + 1] == rows[..j] + [rows[j]];
  }

  lemma RankDone(names: seq<Name>, rows: seq<nat>, keys: seq<nat>, met: seq<Name>)
    requires KeysName(names, rows, keys, met)
    ensures rows[..|keys|] == rows
  {
  }

  /** What one part must come to for the rows it has. */
  ghost predicate PartBuilt(names: seq<Name>, rows: seq<nat>, keys: seq<nat>, distinct: seq<Name>, lists: seq<seq<nat>>) {
    && StrictNames(distinct) && KeysName(names, rows, keys, distinct)
    && |lists| == |distinct|
    && forall k: nat :: k < |lists| ==> lists[k] == Of(rows, keys, k) && lists[k] != []
  }

  /** The third pass for one part: the span from `lo` to `hi` goes in as row ids
      and comes out as keys into `distinct`; `posts` holds its rows by key. */
  method BuildPart(names: seq<Name>, byPart: array<nat>, posts: array<nat>, lo: nat, hi: nat)
    returns (distinct: seq<Name>, lists: seq<seq<nat>>)
    requires lo <= hi <= byPart.Length == posts.Length && byPart != posts
    requires forall j :: lo <= j < hi ==> byPart[j] < |names|
    modifies byPart, posts
    ensures PartBuilt(names, old(byPart[lo..hi]), byPart[lo..hi], distinct, lists)
    ensures byPart[..lo] == old(byPart[..lo]) && byPart[hi..] == old(byPart[hi..])
  {
    hide *;
    var rows := byPart[lo..hi];
    var met, first := Intern(names, rows);
    var keys;
    distinct, keys := Rank(names, rows, met, first);
    KeysBelow(names, rows, keys, distinct);
    var counts := CountKeys(keys, |distinct|);
    var next := Starts(counts, keys);
    GroupedNone(posts[..], lo, rows, keys, |distinct|);
    for i := 0 to |rows|
      invariant |next| == |distinct| && Slotted(next, keys, i)
      invariant Grouped(posts[..], lo, rows, keys, |distinct|, i)
      invariant byPart[..] == old(byPart[..])
    {
      PartsLess(keys, |distinct|, i);
      NextIsPlace(next, keys, |distinct|, i);
      GroupedStep(posts[..], lo, rows, keys, |distinct|, i);
      SlottedStep(next, keys, i);
      ghost var was := posts[..];
      posts[lo + next[keys[i]]] := rows[i];
      assert posts[..] == was[lo + Place(keys, i) := rows[i]];
      next := next[keys[i] := next[keys[i]] + 1];
    }
    GroupedAll(posts[..], lo, rows, keys, |distinct|);
    lists := Lists(posts, lo, rows, keys, counts);
    ListsFull(names, rows, keys, met, first, distinct, lists);
    forall j | 0 <= j < |keys| {
      byPart[lo + j] := keys[j];
    }
    assert byPart[lo..hi] == keys;
  }

  lemma KeysBelow(names: seq<Name>, rows: seq<nat>, keys: seq<nat>, distinct: seq<Name>)
    requires KeysName(names, rows, keys, distinct)
    ensures |keys| == |rows| && Below(keys, |distinct|)
  {
  }

  /** How many rows each key has. */
  method CountKeys(keys: seq<nat>, n: nat) returns (counts: seq<nat>)
    requires Below(keys, n)
    ensures |counts| == n && forall k :: 0 <= k < n ==> counts[k] == Count(keys, k)
  {
    hide *;
    counts := seq(n, _ => 0);
    TalliedNone(counts, keys, 0);
    for i := 0 to |keys|
      invariant |counts| == n && Tallied(counts, keys, 0, i)
    {
      PartsLess(keys, n, i);
      TalliedStep(counts, keys, 0, i);
      counts := counts[keys[i] := counts[keys[i]] + 1];
    }
    TalliedWhole(counts, keys);
  }

  lemma TalliedWhole(counts: seq<nat>, keys: seq<nat>)
    requires Tallied(counts, keys, 0, |keys|)
    ensures forall k :: 0 <= k < |counts| ==> counts[k] == Count(keys, k)
  {
    hide Count;
    assert keys[..|keys|] == keys;
    forall k: nat | k < |counts|
      ensures counts[k] == Count(keys, k)
    {
      assert TalliedAt(counts, keys, 0, |keys|, k);
      CountNothing(keys, k);
    }
  }

  /** Takes the grouped rows apart again, a list a key. */
  method Lists(posts: array<nat>, lo: nat, ghost rows: seq<nat>, ghost keys: seq<nat>, counts: seq<nat>) returns (lists: seq<seq<nat>>)
    requires |rows| == |keys| && forall k :: 0 <= k < |counts| ==> counts[k] == Count(keys, k)
    requires forall p: nat :: p < |counts| ==> Segment(posts[..], lo + Before(keys, p), Of(rows, keys, p))
    ensures |lists| == |counts| && forall k :: 0 <= k < |lists| ==> lists[k] == Of(rows, keys, k)
  {
    hide *;
    lists := [];
    var at: nat := lo;
    BeforeNext(keys, 0);
    for k := 0 to |counts|
      invariant |lists| == k && at == lo + Before(keys, k)
      invariant forall l :: 0 <= l < k ==> lists[l] == Of(rows, keys, l)
    {
      OfSize(rows, keys, k);
      SegmentIs(posts[..], at, Of(rows, keys, k));
      BeforeNext(keys, k);
      assert posts[..][at..at + counts[k]] == posts[at..at + counts[k]];
      lists := lists + [posts[at..at + counts[k]]];
      at := at + counts[k];
    }
  }

  lemma SegmentIs(out: seq<nat>, at: nat, s: seq<nat>)
    requires Segment(out, at, s)
    ensures at + |s| <= |out| && out[at..at + |s|] == s
  {
  }

  /** Every distinct name was met, so no list is empty. */
  lemma ListsFull(names: seq<Name>, rows: seq<nat>, keys: seq<nat>, met: seq<Name>, first: seq<nat>, distinct: seq<Name>, lists: seq<seq<nat>>)
    requires StrictNames(distinct) && KeysName(names, rows, keys, distinct) && (forall x :: x in distinct <==> x in met)
    requires KeysName(names, rows, first, met)
    requires MetFrom(names, rows, met)
    requires |lists| == |distinct| && forall k :: 0 <= k < |lists| ==> lists[k] == Of(rows, keys, k)
    ensures PartBuilt(names, rows, keys, distinct, lists)
  {
    hide Of, NameLe;
    forall k: nat | k < |lists|
      ensures lists[k] != []
    {
      assert distinct[k] in distinct;
      var v :| 0 <= v < |met| && met[v] == distinct[k];
      var j :| 0 <= j < |rows| && rows[j] < |names| && names[rows[j]] == met[v];
      StrictAt(distinct, keys[j], k);
      OfMembers(rows, keys, k, rows[j]);
    }
  }

  lemma StrictAt(s: seq<Name>, i: nat, j: nat)
    requires StrictNames(s) && i < |s| && j < |s| && s[i] == s[j]
    ensures i == j
  {
  }

  // ---- all parts together ----

  function Flat<T>(ss: seq<seq<T>>): seq<T> {
    if ss == [] then [] else Flat(ss[..|ss| - 1]) + ss[|ss| - 1]
  }

  lemma {:induction false} FlatAt<T>(ss: seq<seq<T>>, p: nat, k: nat)
    requires p < |ss| && k < |ss[p]|
    ensures |Flat(ss[..p])| + k < |Flat(ss)| && Flat(ss)[|Flat(ss[..p])| + k] == ss[p][k]
  {
    if p < |ss| - 1 {
      var front := ss[..|ss| - 1];
      FlatAt(front, p, k);
      assert front[..p] == ss[..p];
    }
  }

  lemma {:induction false} FlatWhere<T>(ss: seq<seq<T>>, g: nat) returns (p: nat, k: nat)
    requires g < |Flat(ss)|
    ensures p < |ss| && k < |ss[p]| && g == |Flat(ss[..p])| + k
  {
    var front := ss[..|ss| - 1];
    if g < |Flat(front)| {
      p, k := FlatWhere(front, g);
      assert front[..p] == ss[..p];
    } else {
      p, k := |ss| - 1, g - |Flat(front)|;
    }
  }

  lemma {:induction false} FlatSizes<T, U>(a: seq<seq<T>>, b: seq<seq<U>>)
    requires |a| == |b| && forall p :: 0 <= p < |a| ==> |a[p]| == |b[p]|
    ensures |Flat(a)| == |Flat(b)|
  {
    if a != [] {
      FlatSizes(a[..|a| - 1], b[..|b| - 1]);
    }
  }

  /** One part's rows, grouped out of the whole. */
  ghost function RowsOf(keys: seq<nat>, p: nat): seq<nat> {
    Of(Ids(|keys|), keys, p)
  }

  ghost predicate PartIn(names: seq<Name>, keys: seq<nat>, local: seq<nat>, p: nat, distinct: seq<Name>, lists: seq<seq<nat>>) {
    && Before(keys, p) + Count(keys, p) <= |local|
    && PartBuilt(names, RowsOf(keys, p), local[Before(keys, p)..Before(keys, p) + Count(keys, p)], distinct, lists)
  }

  /** The first parts are built; the rest still hold their rows. */
  ghost predicate PartsIn(names: seq<Name>, keys: seq<nat>, local: seq<nat>, parts: nat,
                          distincts: seq<seq<Name>>, lists: seq<seq<seq<nat>>>) {
    && |distincts| == |lists| <= parts
    && (forall p: nat :: p < |lists| ==> PartIn(names, keys, local, p, distincts[p], lists[p]))
    && forall p: nat :: |lists| <= p < parts ==> Segment(local, Before(keys, p), RowsOf(keys, p))
  }

  /** Pass 3: every part by itself, in its own span. */
  method BuildParts(names: seq<Name>, byPart: array<nat>, parts: nat, sizes: seq<nat>, ghost keys: seq<nat>)
    returns (distincts: seq<seq<Name>>, lists: seq<seq<seq<nat>>>)
    requires |keys| == |names| == byPart.Length && Below(keys, parts)
    requires |sizes| == parts && forall p :: 0 <= p < parts ==> sizes[p] == Count(keys, p)
    requires forall p: nat :: p < parts ==> Segment(byPart[..], Before(keys, p), Of(Ids(|keys|), keys, p))
    modifies byPart
    ensures PartsIn(names, keys, byPart[..], parts, distincts, lists) && |distincts| == parts
  {
    hide *;
    var posts := new nat[byPart.Length];
    distincts, lists := [], [];
    PartsNone(names, keys, byPart[..], parts);
    var lo: nat := 0;
    BeforeNext(keys, 0);
    BeforeAll(keys, parts);
    for p := 0 to parts
      invariant lo == Before(keys, p) && |distincts| == |lists| == p
      invariant PartsIn(names, keys, byPart[..], parts, distincts, lists)
    {
      PartNext(names, keys, byPart[..], parts, distincts, lists, p);
      ghost var was := byPart[..];
      assert byPart[lo..lo + sizes[p]] == was[lo..lo + sizes[p]];
      var distinct, list := BuildPart(names, byPart, posts, lo, lo + sizes[p]);
      assert byPart[lo..lo + sizes[p]] == byPart[..][lo..lo + sizes[p]];
      assert byPart[..lo] == byPart[..][..lo] && was[..lo] == byPart[..lo];
      assert byPart[lo + sizes[p]..] == byPart[..][lo + sizes[p]..] && was[lo + sizes[p]..] == byPart[lo + sizes[p]..];
      PartsStep(names, keys, was, byPart[..], parts, distincts, lists, p, distinct, list);
      distincts, lists := distincts + [distinct], lists + [list];
      BeforeNext(keys, p);
      lo := lo + sizes[p];
    }
  }

  lemma PartsNone(names: seq<Name>, keys: seq<nat>, local: seq<nat>, parts: nat)
    requires forall p: nat :: p < parts ==> Segment(local, Before(keys, p), Of(Ids(|keys|), keys, p))
    ensures PartsIn(names, keys, local, parts, [], [])
  {
    hide Segment, Of, Before;
  }

  /** The next part's span holds its rows, all of them rows of the names. */
  lemma PartNext(names: seq<Name>, keys: seq<nat>, local: seq<nat>, parts: nat,
                 distincts: seq<seq<Name>>, lists: seq<seq<seq<nat>>>, p: nat)
    requires PartsIn(names, keys, local, parts, distincts, lists) && |lists| == p < parts && |keys| == |names| == |local|
    ensures Before(keys, p) + Count(keys, p) <= |local|
    ensures local[Before(keys, p)..Before(keys, p) + Count(keys, p)] == RowsOf(keys, p)
    ensures forall j :: Before(keys, p) <= j < Before(keys, p) + Count(keys, p) ==> local[j] < |names|
  {
    hide Of, Before, Count, PartIn;
    var lo, rows := Before(keys, p), RowsOf(keys, p);
    assert Segment(local, lo, rows);
    OfSize(Ids(|keys|), keys, p);
    forall j | lo <= j < lo + Count(keys, p)
      ensures local[j] < |names|
    {
      assert local[j] == local[lo..lo + |rows|][j - lo] == rows[j - lo];
      OfMembers(Ids(|keys|), keys, p, rows[j - lo]);
    }
  }

  /** Building one part leaves the others' spans alone. */
  lemma PartsStep(names: seq<Name>, keys: seq<nat>, was: seq<nat>, local: seq<nat>, parts: nat,
                  distincts: seq<seq<Name>>, lists: seq<seq<seq<nat>>>, p: nat, distinct: seq<Name>, list: seq<seq<nat>>)
    requires PartsIn(names, keys, was, parts, distincts, lists) && |lists| == p < parts && |local| == |was|
    requires var lo, hi := Before(keys, p), Before(keys, p) + Count(keys, p);
      hi <= |local| && local[..lo] == was[..lo] && local[hi..] == was[hi..]
      && PartBuilt(names, RowsOf(keys, p), local[lo..hi], distinct, list)
    ensures PartsIn(names, keys, local, parts, distincts + [distinct], lists + [list])
  {
    hide Of, Before, Count, PartBuilt, RowsOf;
    var ds, ls := distincts + [distinct], lists + [list];
    var lo, hi := Before(keys, p), Before(keys, p) + Count(keys, p);
    forall q: nat | q < |ls|
      ensures PartIn(names, keys, local, q, ds[q], ls[q])
    {
      if q < p {
        assert PartIn(names, keys, was, q, distincts[q], lists[q]);
        BeforeGrows(keys, q, p);
        var a, b := Before(keys, q), Before(keys, q) + Count(keys, q);
        assert local[a..b] == local[..lo][a..b];
        assert was[a..b] == was[..lo][a..b];
      }
    }
    forall q: nat | |ls| <= q < parts
      ensures Segment(local, Before(keys, q), RowsOf(keys, q))
    {
      assert Segment(was, Before(keys, q), RowsOf(keys, q));
      BeforeGrows(keys, p, q);
      var a, b := Before(keys, q), Before(keys, q) + |RowsOf(keys, q)|;
      assert local[a..b] == local[hi..][a - hi..b - hi];
      assert was[a..b] == was[hi..][a - hi..b - hi];
    }
  }

  function Clamp(threads: nat): (r: nat)
    ensures 1 <= r <= 255
  {
    if threads < 1 then 1 else if threads > 255 then 255 else threads
  }

  function ChunkOf(total: nat, parts: nat): (r: nat)
    requires parts >= 1
    ensures r >= 1
  {
    var c := (total + parts - 1) / parts;
    if c < 1 then 1 else c
  }

  /** The whole build: for every list of names and every thread count, the
      dictionary there is. */
  method Build(names: seq<Name>, threads: nat) returns (d: Dictionary)
    ensures IsDictionary(names, d)
  {
    hide *;
    var parts := Clamp(threads);
    var splitters := Splitters(names, parts);
    var cuts := Chunks(|names|, ChunkOf(|names|, parts));
    d := BuildWith(names, splitters, parts, cuts);
  }

  /** As `Build`, at any rising splitters and any chunks of rows. */
  method BuildWith(names: seq<Name>, splitters: seq<nat>, parts: nat, cuts: seq<nat>) returns (d: Dictionary)
    requires 1 <= parts <= 255 && Rising(splitters) && |splitters| < parts && IsCuts(cuts, |names|)
    ensures IsDictionary(names, d)
  {
    hide *;
    var part, counts := Assign(names, splitters, parts, cuts);
    ghost var keys: seq<nat> := part[..];
    PartsBelow(names, splitters, parts);
    var sizes := Sizes(counts, parts, cuts, keys);
    var byPart := Group(part, counts, parts, cuts);
    assert part[..] == keys;
    var distincts, lists := BuildParts(names, byPart, parts, sizes, keys);
    var firsts := Firsts(distincts);
    assert part[..] == keys;
    ghost var local := byPart[..];
    var ids := Keys(part, counts, parts, cuts, sizes, byPart, firsts);
    d := Dictionary(Flat(distincts), ids[..], Flat(lists));
    assert part[..] == keys && byPart[..] == local;
    Assembled(names, splitters, keys, local, parts, distincts, lists, firsts, ids[..]);
  }

  /** Each part's first key: how many names earlier parts have. */
  method Firsts(distincts: seq<seq<Name>>) returns (firsts: seq<nat>)
    ensures |firsts| == |distincts| && forall p :: 0 <= p < |distincts| ==> firsts[p] == |Flat(distincts[..p])|
  {
    firsts := [];
    var next: nat := 0;
    for p := 0 to |distincts|
      invariant |firsts| == p && next == |Flat(distincts[..p])|
      invariant forall q :: 0 <= q < p ==> firsts[q] == |Flat(distincts[..q])|
    {
      assert distincts[..p + 1][..p] == distincts[..p];
      firsts := firsts + [next];
      next := next + |distincts[p]|;
    }
  }

  lemma Assembled(names: seq<Name>, splitters: seq<nat>, keys: seq<nat>, local: seq<nat>, parts: nat,
                  distincts: seq<seq<Name>>, lists: seq<seq<seq<nat>>>, firsts: seq<nat>, ids: seq<nat>)
    requires keys == PartsOf(names, splitters) && Rising(splitters) && Below(keys, parts)
    requires PartsIn(names, keys, local, parts, distincts, lists) && |distincts| == parts
    requires |firsts| == parts && forall p :: 0 <= p < parts ==> firsts[p] == |Flat(distincts[..p])|
    requires |ids| == |names| && forall i: nat :: i < |keys| ==> KeyAt(ids, keys, local, firsts, i)
    ensures IsDictionary(names, Dictionary(Flat(distincts), ids, Flat(lists)))
  {
    hide *;
    PartsBelowSelf(names, splitters);
    PartsInSizes(names, keys, local, parts, distincts, lists);
    forall p: nat | p < parts
      ensures PartOk(names, splitters, keys, local, p, distincts, lists)
    {
      PartOkAt(names, splitters, keys, local, parts, distincts, lists, p);
    }
    PartsStrict(names, splitters, keys, local, distincts, lists, parts);
    assert distincts[..parts] == distincts;
    forall row: nat | row < |names|
      ensures ids[row] < |Flat(distincts)| && Flat(distincts)[ids[row]] == names[row]
    {
      PartsLess(keys, parts, row);
      RowKey(names, splitters, keys, local, distincts, lists, firsts, ids, row);
    }
    PartsSizes(names, splitters, keys, local, distincts, lists, parts);
    forall g: nat | g < |Flat(distincts)|
      ensures Posts(names, Flat(distincts)[g], Flat(lists)[g])
    {
      var p, k := FlatWhere(distincts, g);
      NamePosted(names, splitters, keys, local, distincts, lists, p, k);
      FlatAt(distincts, p, k);
      PartsSizesTo(names, splitters, keys, local, distincts, lists, p);
      FlatAt(lists, p, k);
    }
    Whole(names, Dictionary(Flat(distincts), ids, Flat(lists)));
  }

  lemma PartsInSizes(names: seq<Name>, keys: seq<nat>, local: seq<nat>, parts: nat,
                     distincts: seq<seq<Name>>, lists: seq<seq<seq<nat>>>)
    requires PartsIn(names, keys, local, parts, distincts, lists)
    ensures |distincts| == |lists|
  {
  }

  lemma Whole(names: seq<Name>, d: Dictionary)
    requires StrictNames(d.distinct) && |d.keys| == |names| && |d.postings| == |d.distinct|
    requires forall row: nat :: row < |names| ==> d.keys[row] < |d.distinct| && d.distinct[d.keys[row]] == names[row]
    requires forall k: nat :: k < |d.distinct| ==> Posts(names, d.distinct[k], d.postings[k])
    ensures IsDictionary(names, d)
  {
    hide Posts, StrictNames;
  }

  lemma PartsBelowSelf(names: seq<Name>, splitters: seq<nat>)
    ensures |PartsOf(names, splitters)| == |names|
  {
  }

  /** One part within the whole: its names all fall in its range. */
  ghost predicate PartOk(names: seq<Name>, splitters: seq<nat>, keys: seq<nat>, local: seq<nat>, p: nat,
                         distincts: seq<seq<Name>>, lists: seq<seq<seq<nat>>>) {
    && p < |distincts| == |lists| && |keys| == |names| && keys == PartsOf(names, splitters)
    && PartIn(names, keys, local, p, distincts[p], lists[p])
    && forall x :: x in distincts[p] ==> PartOf(splitters, Prefix(x)) == p
  }

  lemma PartOkAt(names: seq<Name>, splitters: seq<nat>, keys: seq<nat>, local: seq<nat>, parts: nat,
                 distincts: seq<seq<Name>>, lists: seq<seq<seq<nat>>>, p: nat)
    requires keys == PartsOf(names, splitters) && PartsIn(names, keys, local, parts, distincts, lists)
    requires p < |distincts| == parts
    ensures PartOk(names, splitters, keys, local, p, distincts, lists)
  {
    hide Of, Before, Count, Prefix, PartOf, StrictNames;
    assert PartIn(names, keys, local, p, distincts[p], lists[p]);
    var rows, mine := RowsOf(keys, p), local[Before(keys, p)..Before(keys, p) + Count(keys, p)];
    forall x | x in distincts[p]
      ensures PartOf(splitters, Prefix(x)) == p
    {
      var k: nat :| k < |distincts[p]| && distincts[p][k] == x;
      assert lists[p][k] == Of(rows, mine, k) && lists[p][k] != [];
      OfMembers(rows, mine, k, lists[p][k][0]);
      var j: nat :| j < |mine| && mine[j] == k && rows[j] == lists[p][k][0];
      assert distincts[p][mine[j]] == names[rows[j]];
      OfMembers(Ids(|keys|), keys, p, rows[j]);
      PartsAt(names, splitters, rows[j]);
    }
  }

  lemma {:induction false} PartsStrict(names: seq<Name>, splitters: seq<nat>, keys: seq<nat>, local: seq<nat>,
                                       distincts: seq<seq<Name>>, lists: seq<seq<seq<nat>>>, n: nat)
    requires n <= |distincts| && Rising(splitters)
    requires forall p: nat :: p < n ==> PartOk(names, splitters, keys, local, p, distincts, lists)
    ensures StrictNames(Flat(distincts[..n]))
    ensures forall x :: x in Flat(distincts[..n]) ==> PartOf(splitters, Prefix(x)) < n
  {
    hide Of, Before, Count, Prefix, PartOf, KeysName, NameLt;
    if n > 0 {
      PartsStrict(names, splitters, keys, local, distincts, lists, n - 1);
      var front, last := Flat(distincts[..n - 1]), distincts[n - 1];
      assert distincts[..n][..n - 1] == distincts[..n - 1];
      assert PartOk(names, splitters, keys, local, n - 1, distincts, lists);
      forall i, j | 0 <= i < |front| && 0 <= j < |last|
        ensures NameLt(front[i], last[j])
      {
        assert front[i] in front && last[j] in last;
        PartsInOrder(splitters, front[i], last[j]);
      }
      StrictJoin(front, last);
    }
  }

  lemma StrictJoin(a: seq<Name>, b: seq<Name>)
    requires StrictNames(a) && StrictNames(b)
    requires forall i, j :: 0 <= i < |a| && 0 <= j < |b| ==> NameLt(a[i], b[j])
    ensures StrictNames(a + b)
  {
    hide NameLt;
  }

  /** A row's key leads to its name. */
  lemma RowKey(names: seq<Name>, splitters: seq<nat>, keys: seq<nat>, local: seq<nat>, distincts: seq<seq<Name>>,
               lists: seq<seq<seq<nat>>>, firsts: seq<nat>, ids: seq<nat>, row: nat)
    requires row < |names| == |keys| && keys[row] < |distincts| == |firsts|
    requires PartOk(names, splitters, keys, local, keys[row], distincts, lists)
    requires firsts[keys[row]] == |Flat(distincts[..keys[row]])| && KeyAt(ids, keys, local, firsts, row)
    ensures ids[row] < |Flat(distincts)| && Flat(distincts)[ids[row]] == names[row]
  {
    hide Of, Before, Count, Prefix, PartOf, StrictNames, Flat;
    var p := keys[row];
    var rows, mine := RowsOf(keys, p), local[Before(keys, p)..Before(keys, p) + Count(keys, p)];
    var j := Count(keys[..row], p);
    OfAt(Ids(|keys|), keys, row);
    assert rows[j] == row;
    assert mine[j] == local[Place(keys, row)];
    assert distincts[p][mine[j]] == names[rows[j]];
    FlatAt(distincts, p, mine[j]);
  }

  lemma PartsSizes(names: seq<Name>, splitters: seq<nat>, keys: seq<nat>, local: seq<nat>,
                   distincts: seq<seq<Name>>, lists: seq<seq<seq<nat>>>, parts: nat)
    requires |distincts| == |lists| == parts
    requires forall p: nat :: p < parts ==> PartOk(names, splitters, keys, local, p, distincts, lists)
    ensures |Flat(distincts)| == |Flat(lists)|
    ensures forall p: nat :: p < parts ==> |distincts[p]| == |lists[p]|
  {
    hide Of, Before, Count, Prefix, PartOf, StrictNames, Flat, KeysName, PartsOf;
    forall p: nat | p < parts
      ensures |distincts[p]| == |lists[p]|
    {
      assert PartOk(names, splitters, keys, local, p, distincts, lists);
    }
    FlatSizes(distincts, lists);
  }

  lemma PartsSizesTo(names: seq<Name>, splitters: seq<nat>, keys: seq<nat>, local: seq<nat>,
                     distincts: seq<seq<Name>>, lists: seq<seq<seq<nat>>>, p: nat)
    requires p < |distincts| == |lists| && forall q: nat :: q < |distincts| ==> |distincts[q]| == |lists[q]|
    ensures |Flat(distincts[..p])| == |Flat(lists[..p])|
  {
    FlatSizes(distincts[..p], lists[..p]);
  }

  /** A part's list is exactly the rows with its name. */
  lemma NamePosted(names: seq<Name>, splitters: seq<nat>, keys: seq<nat>, local: seq<nat>,
                   distincts: seq<seq<Name>>, lists: seq<seq<seq<nat>>>, p: nat, k: nat)
    requires PartOk(names, splitters, keys, local, p, distincts, lists) && k < |distincts[p]|
    ensures k < |lists[p]| && Posts(names, distincts[p][k], lists[p][k])
  {
    hide Of, Before, Count, Prefix, PartOf, NameLt;
    var rows, mine := RowsOf(keys, p), local[Before(keys, p)..Before(keys, p) + Count(keys, p)];
    var name, list := distincts[p][k], lists[p][k];
    assert list == Of(rows, mine, k) && list != [];
    IdsAre(|keys|);
    OfAscending(Ids(|keys|), keys, p);
    OfAscending(rows, mine, k);
    forall row: nat
      ensures row in list <==> row < |names| && names[row] == name
    {
      OfMembers(rows, mine, k, row);
      OfMembers(Ids(|keys|), keys, p, row);
      if row in list {
        var j: nat :| j < |mine| && mine[j] == k && rows[j] == row;
        assert distincts[p][mine[j]] == names[rows[j]];
      }
      if row < |names| && names[row] == name {
        assert name in distincts[p];
        PartsAt(names, splitters, row);
        assert keys[row] == p && Ids(|keys|)[row] == row;
        var j: nat :| j < |rows| && rows[j] == row;
        assert distincts[p][mine[j]] == names[rows[j]];
        StrictAt(distincts[p], mine[j], k);
      }
    }
  }
}
