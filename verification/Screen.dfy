/** Per-document filter screening: inverting postings into key sets, writing one
    filter per live document, and probing the serialized filters. */
module Screen {
  import opened Bits
  import opened Fuse
  import opened FuseBuild
  import opened Basics

  /** Above this length a filter is probed a byte at a time. */
  const WHOLE_READ: nat := 4096

  // ---- serialized filters ----

  /** A filter's seed and shape, which come before its fingerprints. */
  datatype Header = Header(seed: U64, shape: Shape)

  function Serialized(f: Filter): seq<U8>
    requires f.shape.log2 < 256
  {
    if f.fingerprints == [] then []
    else ToBytes(f.seed, 8) + [f.shape.log2] + ToBytes(f.shape.segments, 4) + f.fingerprints
  }

  /** `out` with a filter's bytes at its end. */
  method Write(f: Filter, out: seq<U8>) returns (r: seq<U8>)
    requires f.shape.log2 < 256
    ensures r == out + Serialized(f)
  {
    if f.fingerprints == [] {
      return out;
    }
    r := out + ToBytes(f.seed, 8);
    r := r + [f.shape.log2];
    r := r + ToBytes(f.shape.segments, 4);
    r := r + f.fingerprints;
  }

  function Parse(bytes: seq<U8>): Header
    requires |bytes| == HEADER
  {
    FromBytesBound(bytes[..8]);
    Pow2Constants();
    Header(FromBytes(bytes[..8]), Shape(bytes[8], FromBytes(bytes[9..13])))
  }

  /** Header and fingerprints come back as they were written. */
  lemma HeaderRoundTrip(f: Filter)
    requires f.shape.Valid() && f.fingerprints != []
    ensures |Serialized(f)| == HEADER + |f.fingerprints|
    ensures Parse(Serialized(f)[..HEADER]) == Header(f.seed, f.shape)
    ensures Serialized(f)[HEADER..] == f.fingerprints
    ensures var b := Serialized(f);
      b[..8] == ToBytes(f.seed, 8) && b[8] == f.shape.log2 && b[9..13] == ToBytes(f.shape.segments, 4)
  {
    var b := Serialized(f)[..HEADER];
    assert b[..8] == ToBytes(f.seed, 8);
    assert b[9..13] == ToBytes(f.shape.segments, 4);
    ToFromBytes(f.seed, 8);
    ToFromBytes(f.shape.segments, 4);
    Pow2Constants();
    LowSmall(f.seed, 64);
    LowSmall(f.shape.segments, 32);
  }

  // ---- what a query needs ----

  datatype Need = All | Nothing | Key(key: U64) | And(parts: seq<Need>) | Or(parts: seq<Need>)

  predicate Eval(need: Need, test: U64 -> bool) {
    match need
    case All => true
    case Nothing => false
    case Key(key) => test(key)
    case And(parts) => forall i :: 0 <= i < |parts| ==> Eval(parts[i], test)
    case Or(parts) => exists i :: 0 <= i < |parts| && Eval(parts[i], test)
  }

  /** The lists of keys that each would do: one empty list for any document, none
      for none, either's lists for a choice, and one list of each part together
      for a conjunction. */
  function Alternatives(need: Need): seq<seq<U64>> {
    match need
    case All => [[]]
    case Nothing => []
    case Key(key) => [[key]]
    case And(parts) => Together(parts)
    case Or(parts) => Either(parts)
  }

  function Either(parts: seq<Need>): seq<seq<U64>> {
    if parts == [] then [] else Either(parts[..|parts| - 1]) + Alternatives(parts[|parts| - 1])
  }

  function Together(parts: seq<Need>): seq<seq<U64>> {
    if parts == [] then [[]] else Pairs(Together(parts[..|parts| - 1]), Alternatives(parts[|parts| - 1]))
  }

  /** Every list of `a` followed by every list of `b`. */
  function Pairs(a: seq<seq<U64>>, b: seq<seq<U64>>): seq<seq<U64>> {
    if a == [] then []
    else
      var last := a[|a| - 1];
      Pairs(a[..|a| - 1], b) + seq(|b|, i requires 0 <= i < |b| => last + b[i])
  }

  predicate AllPass(keys: seq<U64>, test: U64 -> bool) {
    forall i :: 0 <= i < |keys| ==> test(keys[i])
  }

  /** Some list's keys all pass. */
  predicate SomePass(lists: seq<seq<U64>>, test: U64 -> bool) {
    exists i :: 0 <= i < |lists| && AllPass(lists[i], test)
  }

  /** A need holds exactly if every key of one of its lists does. */
  lemma {:induction false} EvalIsSomePass(need: Need, test: U64 -> bool)
    ensures Eval(need, test) <==> SomePass(Alternatives(need), test)
    decreases need, 0
  {
    match need
    case All => assert AllPass([[]][0], test);
    case Nothing =>
    case Key(key) => assert AllPass([[key]][0], test) <==> test([key][0]);
    case And(parts) =>
      TogetherPass(parts, test, |parts|);
      assert parts[..|parts|] == parts;
    case Or(parts) =>
      EitherPass(parts, test, |parts|);
      assert parts[..|parts|] == parts;
  }

  lemma {:induction false} EitherPass(parts: seq<Need>, test: U64 -> bool, n: nat)
    requires n <= |parts|
    ensures SomePass(Either(parts[..n]), test) <==> exists i :: 0 <= i < n && Eval(parts[i], test)
    decreases parts, n
  {
    if n > 0 {
      var front, last := Either(parts[..n - 1]), Alternatives(parts[n - 1]);
      EitherPass(parts, test, n - 1);
      EvalIsSomePass(parts[n - 1], test);
      assert parts[..n][..n - 1] == parts[..n - 1];
      assert Either(parts[..n]) == front + last;
      JoinPass(front, last, test);
    }
  }

  lemma {:induction false} TogetherPass(parts: seq<Need>, test: U64 -> bool, n: nat)
    requires n <= |parts|
    ensures SomePass(Together(parts[..n]), test) <==> forall i :: 0 <= i < n ==> Eval(parts[i], test)
    decreases parts, n
  {
    if n == 0 {
      assert AllPass([[]][0], test);
    } else {
      var front, last := Together(parts[..n - 1]), Alternatives(parts[n - 1]);
      TogetherPass(parts, test, n - 1);
      EvalIsSomePass(parts[n - 1], test);
      assert parts[..n][..n - 1] == parts[..n - 1];
      assert Together(parts[..n]) == Pairs(front, last);
      PairsPass(front, last, test);
    }
  }

  lemma JoinPass(a: seq<seq<U64>>, b: seq<seq<U64>>, test: U64 -> bool)
    ensures SomePass(a + b, test) <==> SomePass(a, test) || SomePass(b, test)
  {
    if SomePass(a, test) {
      var i :| 0 <= i < |a| && AllPass(a[i], test);
      assert AllPass((a + b)[i], test);
    }
    if SomePass(b, test) {
      var i :| 0 <= i < |b| && AllPass(b[i], test);
      assert AllPass((a + b)[|a| + i], test);
    }
  }

  lemma {:induction false} PairsPass(a: seq<seq<U64>>, b: seq<seq<U64>>, test: U64 -> bool)
    ensures SomePass(Pairs(a, b), test) <==> SomePass(a, test) && SomePass(b, test)
  {
    if a != [] {
      var front, last := a[..|a| - 1], a[|a| - 1];
      PairsPass(front, b, test);
      var with := seq(|b|, i requires 0 <= i < |b| => last + b[i]);
      JoinPass(Pairs(front, b), with, test);
      JoinPass(front, [last], test);
      assert front + [last] == a;
      WithPass(last, b, with, test);
      assert SomePass([last], test) <==> AllPass([last][0], test);
    }
  }

  lemma WithPass(keys: seq<U64>, b: seq<seq<U64>>, with: seq<seq<U64>>, test: U64 -> bool)
    requires |with| == |b| && forall i :: 0 <= i < |b| ==> with[i] == keys + b[i]
    ensures SomePass(with, test) <==> AllPass(keys, test) && SomePass(b, test)
  {
    forall i | 0 <= i < |b|
      ensures AllPass(with[i], test) <==> AllPass(keys, test) && AllPass(b[i], test)
    {
      assert forall j :: 0 <= j < |keys| ==> with[i][j] == keys[j];
      assert forall j :: 0 <= j < |b[i]| ==> with[i][|keys| + j] == b[i][j];
    }
  }

  /** A test that says Yes more often admits more: no need has a negation. */
  lemma {:induction false} EvalMonotone(need: Need, f: U64 -> bool, g: U64 -> bool)
    requires forall k: U64 :: f(k) ==> g(k)
    ensures Eval(need, f) ==> Eval(need, g)
  {
    match need
    case And(parts) =>
      forall i | 0 <= i < |parts|
        ensures Eval(parts[i], f) ==> Eval(parts[i], g)
      {
        EvalMonotone(parts[i], f, g);
      }
    case Or(parts) =>
      forall i | 0 <= i < |parts|
        ensures Eval(parts[i], f) ==> Eval(parts[i], g)
      {
        EvalMonotone(parts[i], f, g);
      }
    case _ =>
  }

  // ---- probing ----

  predicate WellFormed(filter: seq<U8>) {
    && |filter| >= HEADER
    && var shape := Parse(filter[..HEADER]).shape;
       shape.Valid() && |filter| == HEADER + shape.ArrayLength()
  }

  /** Whether one serialized filter admits one key. */
  predicate Probe(filter: seq<U8>, key: U64) {
    && WellFormed(filter)
    && var header := Parse(filter[..HEADER]);
       Holds(header.shape, filter[HEADER..], Mix(key, header.seed))
  }

  function ProbeTest(filter: seq<U8>): U64 -> bool {
    (key: U64) => Probe(filter, key)
  }

  function NoKey(): U64 -> bool {
    (key: U64) => false
  }

  /** Exact membership in a key list. */
  function MemberTest(keys: seq<U64>): U64 -> bool {
    (key: U64) => key in keys
  }

  /** Whether one document's stored bytes admit a need: an empty filter holds no key. */
  predicate Admitted(filter: seq<U8>, need: Need) {
    if filter == [] || need.All? then Eval(need, NoKey()) else Eval(need, ProbeTest(filter))
  }

  /** What stored bytes say of a key; no bytes hold no key. */
  function StoredTest(filter: seq<U8>): U64 -> bool {
    if filter == [] then NoKey() else ProbeTest(filter)
  }

  lemma AdmittedIsSomePass(filter: seq<U8>, need: Need)
    ensures Admitted(filter, need) <==> SomePass(Alternatives(need), StoredTest(filter))
  {
    hide Eval, SomePass, Alternatives;
    EvalIsSomePass(need, StoredTest(filter));
    AllAdmits(need, NoKey());
    AllAdmits(need, StoredTest(filter));
  }

  class FilterReader {
    var file: seq<U8>
    var offsets: seq<nat>
    var buffer: seq<U8>
    var memory: Option<seq<U8>>

    /** Offsets bound one well-formed or empty filter per document; a resident
        copy is the file's. */
    predicate Valid()
      reads `file, `offsets, `memory
    {
      && |offsets| >= 1
      && (forall d: nat :: d < |offsets| - 1 ==> Spans(d))
      && (memory.Some? ==> memory.value == file)
    }

    predicate Spans(doc: nat)
      requires doc < |offsets| - 1
      reads `file, `offsets, `memory
    {
      && offsets[doc] <= offsets[doc + 1] <= |file|
      && var slice := file[offsets[doc]..offsets[doc + 1]];
         slice == [] || WellFormed(slice)
    }

    function Slice(doc: nat): seq<U8>
      requires Valid() && doc + 1 < |offsets|
      reads `file, `offsets, `memory
    {
      assert Spans(doc);
      file[offsets[doc]..offsets[doc + 1]]
    }

    constructor (file: seq<U8>, offsets: seq<nat>)
      ensures this.file == file && this.offsets == offsets && memory == None && buffer == []
    {
      this.file, this.offsets, buffer, memory := file, offsets, [], None;
    }

    /** A reader that holds every filter. */
    constructor Resident(file: seq<U8>, offsets: seq<nat>)
      ensures this.file == file && this.offsets == offsets && memory == Some(file) && buffer == []
    {
      this.file, this.offsets, buffer, memory := file, offsets, [], Some(file);
    }

    /** The answer of the bytes stored for `doc`, by whichever of the three
        ways its length and the reader's memory choose. */
    method Admits(doc: nat, need: Need) returns (r: bool)
      requires Valid() && doc + 1 < |offsets|
      modifies this`buffer
      ensures Valid()
      ensures r == Admitted(Slice(doc), need)
      ensures r <==> SomePass(Alternatives(need), StoredTest(Slice(doc)))
    {
      AdmittedIsSomePass(Slice(doc), need);
      hide Eval, SomePass, Alternatives, Probe, WellFormed, Parse, ProbeAt, NoKey, ProbeTest;
      assert Spans(doc);
      var start, end := offsets[doc], offsets[doc + 1];
      if start == end || need.All? {
        return Eval(need, NoKey());
      }
      ghost var slice := Slice(doc);
      assert WellFormed(slice);
      if memory.Some? {
        return ProbeBytes(memory.value[start..end], need);
      }
      if end - start <= WHOLE_READ {
        buffer := file[start..end];
        return ProbeBytes(buffer, need);
      }
      HeaderFits(slice);
      var header := Parse(file[start..start + HEADER]);
      var stored := file;
      var test := (key: U64) => ProbeAt(stored, start + HEADER, header, key);
      PathsAgree(file, start, end, test, header, need);
      r := Eval(need, test);
    }
  }

  function ProbeBytes(filter: seq<U8>, need: Need): bool
    requires WellFormed(filter)
  {
    Eval(need, ProbeTest(filter))
  }

  /** Three positional reads of one byte each, from `base`. */
  predicate ProbeAt(file: seq<U8>, base: nat, header: Header, key: U64) {
    var hash := Mix(key, header.seed);
    var s := header.shape.Slots(hash);
    && base + s[0] < |file| && base + s[1] < |file| && base + s[2] < |file|
    && Xor8(Xor8(Xor8(Fingerprint(hash), file[base + s[0]]), file[base + s[1]]), file[base + s[2]]) == 0
  }

  lemma ProbeAtSlice(file: seq<U8>, start: nat, end: nat, key: U64)
    requires start <= end <= |file| && WellFormed(file[start..end])
    ensures ProbeAt(file, start + HEADER, Parse(file[start..start + HEADER]), key) == Probe(file[start..end], key)
  {
    hide Xor8, Fingerprint, Mix, Shape.Slots, Shape.ArrayLength, Parse;
    var slice := file[start..end];
    assert file[start..start + HEADER] == slice[..HEADER];
    var header := Parse(slice[..HEADER]);
    SlotsGeometry(header.shape, Mix(key, header.seed));
  }

  lemma HeaderFits(slice: seq<U8>)
    requires WellFormed(slice)
    ensures |slice| >= HEADER
  {
  }

  lemma PathsAgree(file: seq<U8>, start: nat, end: nat, test: U64 -> bool, header: Header, need: Need)
    requires start + HEADER <= end <= |file| && WellFormed(file[start..end])
    requires header == Parse(file[start..start + HEADER])
    requires forall key: U64 :: test(key) == ProbeAt(file, start + HEADER, header, key)
    ensures Eval(need, test) == Eval(need, ProbeTest(file[start..end]))
  {
    hide Eval, Probe, WellFormed, Parse, ProbeAt;
    forall key: U64
      ensures test(key) == ProbeTest(file[start..end])(key)
    {
      ProbeAtSlice(file, start, end, key);
    }
    EvalSame(need, test, ProbeTest(file[start..end]));
  }

  lemma EvalSame(need: Need, f: U64 -> bool, g: U64 -> bool)
    requires forall k: U64 :: f(k) == g(k)
    ensures Eval(need, f) == Eval(need, g)
  {
    EvalMonotone(need, f, g);
    EvalMonotone(need, g, f);
  }

  /** No false negatives: a need that the key set meets is admitted by the
      filter built from those keys, as it was serialized. */
  lemma NoLostMatch(f: Filter, keys: seq<U64>, need: Need)
    requires if keys == [] then f.fingerprints == [] else FilterFor(f, keys)
    requires f.shape.log2 < 256
    requires Eval(need, MemberTest(keys))
    ensures Admitted(Serialized(f), need)
  {
    hide Eval, Serialized, Parse, Mix, Peels, Shape.ArrayLength, Holds;
    if keys == [] || need.All? {
      EvalSame(need, MemberTest([]), NoKey());
      AllAdmits(need, NoKey());
      EmptySerialized(f);
    } else {
      HeaderRoundTrip(f);
      forall key: U64 | key in keys
        ensures Probe(Serialized(f), key)
      {
        assert f.Contains(key);
      }
      EvalMonotone(need, MemberTest(keys), ProbeTest(Serialized(f)));
    }
  }

  lemma AllAdmits(need: Need, test: U64 -> bool)
    ensures need.All? ==> Eval(need, test)
  {
  }

  lemma EmptySerialized(f: Filter)
    requires f.shape.log2 < 256
    ensures f.fingerprints == [] <==> Serialized(f) == []
  {
  }
}
