/** View identities and the manifest that names one: a fixed-size record that
    decodes exactly if it is acceptable, and encodes back to the same bytes. */
module Generations {
  import opened Bits
  import opened Basics

  const MANIFEST_LEN: nat := 128
  const NONE: nat := 0xFFFF_FFFF
  const U64_MAX: nat := 0xFFFF_FFFF_FFFF_FFFF

  /** "FERRETC6", and the format before it, "FERRETCR". */
  const MAGIC: seq<U8> := [70, 69, 82, 82, 69, 84, 67, 54]
  const LEGACY_MAGIC: seq<U8> := [70, 69, 82, 82, 69, 84, 67, 82]

  datatype Generation = Generation(incarnation: seq<U8>, checkpoint: U64, sequence: U64)

  /** The next view: a new checkpoint and a new sequence, or neither. */
  function Successor(g: Generation): (r: Option<Generation>)
    ensures r.None? <==> g.checkpoint >= U64_MAX - 1 || g.sequence >= U64_MAX - 1
    ensures r.Some? ==> r.value.incarnation == g.incarnation && r.value.checkpoint < U64_MAX && r.value.sequence < U64_MAX
    ensures r.Some? ==> r.value.checkpoint == g.checkpoint + 1 && r.value.sequence == g.sequence + 1
  {
    if g.checkpoint == U64_MAX || g.checkpoint + 1 == U64_MAX then None
    else if g.sequence == U64_MAX || g.sequence + 1 == U64_MAX then None
    else Some(g.(checkpoint := g.checkpoint + 1, sequence := g.sequence + 1))
  }

  datatype Manifest = Manifest(generation: Generation, logEnd: U64, checkpointSequence: U64, sniffer: U32,
                               counters: seq<U32>, counts: seq<U32>)
  {
    /** The shape its fields have. */
    predicate Shaped() { |generation.incarnation| == 16 && |counters| == 3 && |counts| == 4 }

    /** What decoding demands of the fields. */
    predicate Acceptable()
      requires Shaped()
    {
      && generation.incarnation != seq(16, _ => 0)
      && generation.checkpoint != U64_MAX && generation.sequence != U64_MAX
      && counters[0] <= NONE - 16 && counters[1] != NONE
      && counts[0] <= counters[0] && counts[1] <= counters[1] && counts[2] <= counts[0] && counts[3] <= counters[2]
      && checkpointSequence <= generation.sequence
    }
  }

  /** A checkpoint file's table of contents. */
  datatype Layout = Layout(generation: Generation, sniffer: U32, inodes: U32, names: U32, nextDoc: U32, dirs: U32, docs: U32)

  function FromLayout(l: Layout): (m: Manifest)
    ensures |l.generation.incarnation| == 16 ==> m.Shaped()
  {
    Manifest(l.generation, 0, l.generation.sequence, l.sniffer, [l.inodes, l.names, l.nextDoc], [l.inodes, l.names, l.dirs, l.docs])
  }

  /** Whether a manifest goes with a checkpoint file. */
  predicate Check(m: Manifest, l: Layout)
    requires m.Shaped()
  {
    var expected := FromLayout(l);
    && m.generation.incarnation == l.generation.incarnation && m.generation.checkpoint == l.generation.checkpoint
    && m.checkpointSequence == l.generation.sequence
    && !(m.generation.sequence == m.checkpointSequence && m.sniffer != l.sniffer)
    && (forall i :: 0 <= i < 3 ==> m.counters[i] >= expected.counters[i])
    && !(m.generation.sequence == m.checkpointSequence && (m.counters != expected.counters || m.counts != expected.counts))
    && !(m.logEnd == 0 && m.generation.sequence != m.checkpointSequence)
  }

  /** A later state of one checkpoint: counters no lower, and a log. */
  predicate Advances(m: Manifest, n: Manifest)
    requires m.Shaped() && n.Shaped()
  {
    && n.generation.incarnation == m.generation.incarnation && n.generation.checkpoint == m.generation.checkpoint
    && n.checkpointSequence == m.checkpointSequence && n.generation.sequence > m.generation.sequence && n.logEnd > 0
    && forall i :: 0 <= i < 3 ==> n.counters[i] >= m.counters[i]
  }

  /** The state a checkpoint file itself stands for. */
  predicate IsOwn(m: Manifest, l: Layout)
    requires m.Shaped()
  {
    && m.generation == l.generation && m.checkpointSequence == l.generation.sequence && m.sniffer == l.sniffer
    && m.counters == [l.inodes, l.names, l.nextDoc] && m.counts == [l.inodes, l.names, l.dirs, l.docs]
  }

  /** A later state of it: the log has gone on, and no counter has fallen. */
  predicate IsLater(m: Manifest, l: Layout)
    requires m.Shaped()
  {
    && m.generation.incarnation == l.generation.incarnation && m.generation.checkpoint == l.generation.checkpoint
    && m.checkpointSequence == l.generation.sequence < m.generation.sequence && m.logEnd > 0
    && m.counters[0] >= l.inodes && m.counters[1] >= l.names && m.counters[2] >= l.nextDoc
  }

  /** A manifest goes with a checkpoint exactly if it is the checkpoint's own or
      a later state of it. */
  lemma CheckedIsAdvanced(m: Manifest, l: Layout)
    requires |l.generation.incarnation| == 16 && m.Shaped() && m.checkpointSequence <= m.generation.sequence
    ensures Check(m, l) <==> IsOwn(m, l) || IsLater(m, l)
  {
    if Check(m, l) && m.generation.sequence == l.generation.sequence {
      assert m.generation == l.generation;
    }
  }

  /** So an advance on a manifest that goes with a checkpoint goes with it too. */
  lemma AdvancedStaysChecked(m: Manifest, n: Manifest, l: Layout)
    requires |l.generation.incarnation| == 16 && m.Shaped() && n.Shaped()
    requires m.checkpointSequence <= m.generation.sequence && Check(m, l) && Advances(m, n)
    ensures Check(n, l)
  {
    CheckedIsAdvanced(m, l);
    CheckedIsAdvanced(n, l);
  }

  /** Live inodes, directories among them, live names and live documents, with
      ids below the counters and in the numbers counted. */
  ghost predicate IsView(m: Manifest, inodes: set<nat>, dirs: set<nat>, names: set<nat>, docs: set<nat>)
    requires m.Shaped()
  {
    && dirs <= inodes && Within(inodes, m.counters[0]) && Within(names, m.counters[1]) && Within(docs, m.counters[2])
    && |inodes| == m.counts[0] && |names| == m.counts[1] && |dirs| == m.counts[2] && |docs| == m.counts[3]
  }

  ghost predicate Within(ids: set<nat>, counter: nat) {
    forall id :: id in ids ==> id < counter
  }

  /** The counts a manifest is accepted with are those some view has. */
  lemma AcceptedCounts(m: Manifest)
    requires m.Shaped()
    ensures m.Acceptable() <==>
      && m.generation.incarnation != seq(16, _ => 0) && m.generation.checkpoint != U64_MAX && m.generation.sequence != U64_MAX
      && m.checkpointSequence <= m.generation.sequence && m.counters[0] <= NONE - 16 && m.counters[1] != NONE
      && exists inodes, dirs, names, docs :: IsView(m, inodes, dirs, names, docs)
  {
    if inodes, dirs, names, docs :| IsView(m, inodes, dirs, names, docs) {
      WithinSize(inodes, m.counters[0]);
      WithinSize(names, m.counters[1]);
      WithinSize(docs, m.counters[2]);
      SubsetSize(dirs, inodes);
    }
    if m.Acceptable() {
      RangeSize(m.counts[0]);
      RangeSize(m.counts[1]);
      RangeSize(m.counts[2]);
      RangeSize(m.counts[3]);
      RangeMembers(0, m.counts[0]);
      RangeMembers(0, m.counts[1]);
      RangeMembers(0, m.counts[2]);
      RangeMembers(0, m.counts[3]);
      assert IsView(m, Range(0, m.counts[0]), Range(0, m.counts[2]), Range(0, m.counts[1]), Range(0, m.counts[3]));
    }
  }

  lemma {:induction false} RangeSize(n: nat)
    ensures |Range(0, n)| == n
  {
    if n > 0 {
      RangeSize(n - 1);
      RangeMembers(0, n - 1);
    }
  }

  lemma WithinSize(ids: set<nat>, counter: nat)
    requires Within(ids, counter)
    ensures |ids| <= counter
  {
    RangeMembers(0, counter);
    RangeSize(counter);
    SubsetSize(ids, Range(0, counter));
  }

  // ---- bytes ----

  /** Where the fields lie. */
  predicate FieldsAre(b: seq<U8>, m: Manifest)
    requires |b| == MANIFEST_LEN && m.Shaped()
  {
    && b[16..32] == m.generation.incarnation
    && b[32..40] == ToBytes(m.generation.checkpoint, 8) && b[40..48] == ToBytes(m.generation.sequence, 8)
    && b[48..56] == ToBytes(m.logEnd, 8) && b[56..64] == ToBytes(m.checkpointSequence, 8)
    && b[64..68] == ToBytes(m.sniffer, 4)
    && b[68..72] == ToBytes(m.counters[0], 4) && b[72..76] == ToBytes(m.counters[1], 4) && b[76..80] == ToBytes(m.counters[2], 4)
    && b[80..84] == ToBytes(m.counts[0], 4) && b[84..88] == ToBytes(m.counts[1], 4)
    && b[88..92] == ToBytes(m.counts[2], 4) && b[92..96] == ToBytes(m.counts[3], 4)
  }

  function Zeros(n: nat): seq<U8> {
    seq(n, _ => 0)
  }

  /** What surrounds the fields. */
  predicate Sealed(b: seq<U8>, magic: seq<U8>, version: nat, digest: seq<U8> -> seq<U8>) {
    && |b| == MANIFEST_LEN && b[..8] == magic && b[8..12] == ToBytes(version, 4)
    && b[12..16] == Zeros(4) && b[96..112] == Zeros(16) && b[112..] == digest(b[..112])
  }

  predicate Encoded(b: seq<U8>, m: Manifest, digest: seq<U8> -> seq<U8>)
    requires m.Shaped()
  {
    Sealed(b, MAGIC, 6, digest) && FieldsAre(b, m)
  }

  method Put(out: array<U8>, at: nat, bytes: seq<U8>)
    requires at + |bytes| <= out.Length
    modifies out
    ensures out[..] == old(out[..at]) + bytes + old(out[at + |bytes|..])
  {
    for i := 0 to |bytes|
      invariant forall k :: 0 <= k < out.Length ==> out[k] == if at <= k < at + i then bytes[k - at] else old(out[k])
    {
      out[at + i] := bytes[i];
    }
  }

  /** A put field is there, and others are as they were. */
  lemma PutField(was: seq<U8>, at: nat, bytes: seq<U8>, now: seq<U8>, i: nat, j: nat)
    requires at + |bytes| <= |was| && now == was[..at] + bytes + was[at + |bytes|..] && i <= j <= |was|
    ensures |now| == |was|
    ensures i == at && j == at + |bytes| ==> now[i..j] == bytes
    ensures j <= at || at + |bytes| <= i ==> now[i..j] == was[i..j]
  {
  }

  /** The parts of an encoding, each at its place. */
  function Parts(m: Manifest): seq<(nat, seq<U8>)>
    requires m.Shaped()
  {
    [ (0, MAGIC), (8, ToBytes(6, 4)), (16, m.generation.incarnation),
      (32, ToBytes(m.generation.checkpoint, 8)), (40, ToBytes(m.generation.sequence, 8)),
      (48, ToBytes(m.logEnd, 8)), (56, ToBytes(m.checkpointSequence, 8)), (64, ToBytes(m.sniffer, 4)),
      (68, ToBytes(m.counters[0], 4)), (72, ToBytes(m.counters[1], 4)), (76, ToBytes(m.counters[2], 4)),
      (80, ToBytes(m.counts[0], 4)), (84, ToBytes(m.counts[1], 4)), (88, ToBytes(m.counts[2], 4)), (92, ToBytes(m.counts[3], 4)) ]
  }

  predicate PartAt(b: seq<U8>, part: (nat, seq<U8>)) {
    part.0 + |part.1| <= |b| && b[part.0..part.0 + |part.1|] == part.1
  }

  /** The first parts are in place, and the rest is zero. */
  ghost predicate PartsIn(b: seq<U8>, parts: seq<(nat, seq<U8>)>, n: nat)
    requires n <= |parts|
  {
    && |b| == 112
    && (forall k :: 0 <= k < n ==> PartAt(b, parts[k]))
    && b[12..16] == Zeros(4) && b[96..112] == Zeros(16)
  }

  /** Parts come one after another, clear of the reserved bytes. */
  ghost predicate PartsApart(parts: seq<(nat, seq<U8>)>) {
    && (forall j, k :: 0 <= j < k < |parts| ==> parts[j].0 + |parts[j].1| <= parts[k].0)
    && forall k :: 0 <= k < |parts| ==> parts[k].0 + |parts[k].1| <= 12 || (16 <= parts[k].0 && parts[k].0 + |parts[k].1| <= 96)
  }

  lemma PartsApartAre(m: Manifest)
    requires m.Shaped()
    ensures PartsApart(Parts(m)) && |Parts(m)| == 15
  {
    hide ToBytes;
  }

  lemma PartsStep(was: seq<U8>, now: seq<U8>, parts: seq<(nat, seq<U8>)>, n: nat)
    requires PartsApart(parts) && n < |parts| && PartsIn(was, parts, n)
    requires now == was[..parts[n].0] + parts[n].1 + was[parts[n].0 + |parts[n].1|..]
    ensures PartsIn(now, parts, n + 1)
  {
    var at, bytes := parts[n].0, parts[n].1;
    PutField(was, at, bytes, now, at, at + |bytes|);
    PutField(was, at, bytes, now, 12, 16);
    PutField(was, at, bytes, now, 96, 112);
    forall k | 0 <= k < n
      ensures PartAt(now, parts[k])
    {
      assert PartAt(was, parts[k]);
      PutField(was, at, bytes, now, parts[k].0, parts[k].0 + |parts[k].1|);
    }
  }

  /** Fills the fixed record part by part and seals it. */
  method Encode(m: Manifest, digest: seq<U8> -> seq<U8>) returns (b: seq<U8>)
    requires m.Shaped() && forall s :: |digest(s)| == 16
    ensures Encoded(b, m, digest)
  {
    hide *;
    var parts := Parts(m);
    PartsApartAre(m);
    var out: array<U8> := new U8[112](_ => 0);
    ZeroParts(out[..], parts);
    for n := 0 to |parts|
      invariant PartsIn(out[..], parts, n)
    {
      PartFits(parts, n);
      ghost var was := out[..];
      Put(out, parts[n].0, parts[n].1);
      PartsStep(was, out[..], parts, n);
    }
    b := out[..] + digest(out[..]);
    EncodedIs(m, out[..], digest);
  }

  lemma ZeroParts(b: seq<U8>, parts: seq<(nat, seq<U8>)>)
    requires |b| == 112 && forall i :: 0 <= i < 112 ==> b[i] == 0
    ensures PartsIn(b, parts, 0)
  {
  }

  lemma PartFits(parts: seq<(nat, seq<U8>)>, n: nat)
    requires PartsApart(parts) && n < |parts|
    ensures parts[n].0 + |parts[n].1| <= 112
  {
  }

  lemma EncodedIs(m: Manifest, b: seq<U8>, digest: seq<U8> -> seq<U8>)
    requires m.Shaped() && PartsIn(b, Parts(m), 15) && |digest(b)| == 16
    ensures Encoded(b + digest(b), m, digest)
  {
    hide ToBytes;
    var all, parts := b + digest(b), Parts(m);
    assert all[..112] == b && all[112..] == digest(b);
    forall i: nat, j: nat | i <= j <= 112
      ensures all[i..j] == b[i..j]
    {
    }
    assert PartAt(b, parts[0]) && PartAt(b, parts[1]) && PartAt(b, parts[2]) && PartAt(b, parts[3]) && PartAt(b, parts[4]);
    assert PartAt(b, parts[5]) && PartAt(b, parts[6]) && PartAt(b, parts[7]) && PartAt(b, parts[8]) && PartAt(b, parts[9]);
    assert PartAt(b, parts[10]) && PartAt(b, parts[11]) && PartAt(b, parts[12]) && PartAt(b, parts[13]) && PartAt(b, parts[14]);
    assert all[..8] == b[0..8];
  }

  function Field(b: seq<U8>, at: nat, n: nat): (x: nat)
    requires at + n <= |b|
    ensures x < Pow2(8 * n)
  {
    FromBytesBound(b[at..at + n]);
    FromBytes(b[at..at + n])
  }

  /** The fields as they lie. */
  function Fields(b: seq<U8>): (m: Manifest)
    requires |b| == MANIFEST_LEN
    ensures m.Shaped()
  {
    Manifest(Generation(b[16..32], Word(b, 32), Word(b, 40)), Word(b, 48), Word(b, 56), Half(b, 64),
             [Half(b, 68), Half(b, 72), Half(b, 76)], [Half(b, 80), Half(b, 84), Half(b, 88), Half(b, 92)])
  }

  function Word(b: seq<U8>, at: nat): U64
    requires at + 8 <= |b|
  {
    Pow2Constants();
    Field(b, at, 8)
  }

  function Half(b: seq<U8>, at: nat): U32
    requires at + 4 <= |b|
  {
    Pow2Constants();
    Field(b, at, 4)
  }

  /** Decodes a manifest of this format or the one before. */
  function Decode(b: seq<U8>, digest: seq<U8> -> seq<U8>): Option<Manifest> {
    if |b| != MANIFEST_LEN || (b[..8] != MAGIC && b[..8] != LEGACY_MAGIC) || digest(b[..112]) != b[112..] then None
    else if Field(b, 8, 4) != 6 && Field(b, 8, 4) != 5 then None
    else if (b[..8] == LEGACY_MAGIC) != (Field(b, 8, 4) == 5) then None
    else if b[12..16] != Zeros(4) || b[96..112] != Zeros(16) || !Fields(b).Acceptable() then None
    else Some(Fields(b))
  }

  lemma FieldIs(b: seq<U8>, at: nat, n: nat, x: nat)
    requires at + n <= |b| && x < Pow2(8 * n)
    ensures Field(b, at, n) == x <==> b[at..at + n] == ToBytes(x, n)
  {
    ToFromBytes(x, n);
    LowSmall(x, 8 * n);
    FromToBytes(b[at..at + n]);
  }

  /** The fields that lie in a record are the ones encoded there, and no others. */
  lemma FieldsExact(b: seq<U8>, m: Manifest)
    requires |b| == MANIFEST_LEN && m.Shaped()
    ensures FieldsAre(b, m) <==> Fields(b) == m
  {
    hide ToBytes, FromBytes, Pow2, Field;
    Pow2Constants();
    FieldIs(b, 32, 8, m.generation.checkpoint);
    FieldIs(b, 40, 8, m.generation.sequence);
    FieldIs(b, 48, 8, m.logEnd);
    FieldIs(b, 56, 8, m.checkpointSequence);
    FieldIs(b, 64, 4, m.sniffer);
    FieldIs(b, 68, 4, m.counters[0]);
    FieldIs(b, 72, 4, m.counters[1]);
    FieldIs(b, 76, 4, m.counters[2]);
    FieldIs(b, 80, 4, m.counts[0]);
    FieldIs(b, 84, 4, m.counts[1]);
    FieldIs(b, 88, 4, m.counts[2]);
    FieldIs(b, 92, 4, m.counts[3]);
    if FieldsAre(b, m) {
      assert Fields(b).counters == m.counters && Fields(b).counts == m.counts;
    }
  }

  lemma VersionIs(b: seq<U8>, version: nat)
    requires |b| == MANIFEST_LEN && version < 256
    ensures Field(b, 8, 4) == version <==> b[8..12] == ToBytes(version, 4)
  {
    Pow2Constants();
    FieldIs(b, 8, 4, version);
  }

  /** A manifest comes back from its encoding exactly if it is acceptable. */
  lemma EncodeDecode(m: Manifest, b: seq<U8>, digest: seq<U8> -> seq<U8>)
    requires m.Shaped() && Encoded(b, m, digest)
    ensures Decode(b, digest) == if m.Acceptable() then Some(m) else None
  {
    hide ToBytes, Field, Fields, FieldsAre;
    FieldsExact(b, m);
    VersionIs(b, 6);
  }

  /** A record of this format that decodes is the encoding of what it decodes to. */
  lemma DecodeEncode(m: Manifest, b: seq<U8>, c: seq<U8>, digest: seq<U8> -> seq<U8>)
    requires Decode(b, digest) == Some(m) && |b| == MANIFEST_LEN && b[..8] == MAGIC
    ensures m.Shaped() && m.Acceptable() && Encoded(b, m, digest)
    ensures Encoded(c, m, digest) ==> c == b
  {
    hide ToBytes, Field, Fields, FieldsAre;
    FieldsExact(b, m);
    VersionIs(b, 6);
    if Encoded(c, m, digest) {
      OneEncoding(m, b, c, digest);
    }
  }

  /** A record of the format before decodes to the same fields. */
  lemma LegacyDecodes(m: Manifest, b: seq<U8>, digest: seq<U8> -> seq<U8>)
    requires m.Shaped() && Sealed(b, LEGACY_MAGIC, 5, digest) && FieldsAre(b, m)
    ensures Decode(b, digest) == if m.Acceptable() then Some(m) else None
  {
    hide ToBytes, Field, Fields, FieldsAre;
    FieldsExact(b, m);
    VersionIs(b, 5);
  }

  lemma OneEncoding(m: Manifest, b: seq<U8>, c: seq<U8>, digest: seq<U8> -> seq<U8>)
    requires m.Shaped() && Encoded(b, m, digest) && Encoded(c, m, digest)
    ensures b == c
  {
    hide ToBytes, Zeros;
    assert b[0..8] == b[..8] && c[0..8] == c[..8];
    Extend(b, c, 0, 8);
    Extend(b, c, 8, 12);
    Extend(b, c, 12, 16);
    Extend(b, c, 16, 32);
    Extend(b, c, 32, 40);
    Extend(b, c, 40, 48);
    Extend(b, c, 48, 56);
    Extend(b, c, 56, 64);
    Extend(b, c, 64, 68);
    Extend(b, c, 68, 72);
    Extend(b, c, 72, 76);
    Extend(b, c, 76, 80);
    Extend(b, c, 80, 84);
    Extend(b, c, 84, 88);
    Extend(b, c, 88, 92);
    Extend(b, c, 92, 96);
    Extend(b, c, 96, 112);
    assert b[112..128] == b[112..] && c[112..128] == c[112..];
    Extend(b, c, 112, 128);
    assert b[..128] == b && c[..128] == c;
  }

  lemma Extend(b: seq<U8>, c: seq<U8>, i: nat, j: nat)
    requires i <= j <= |b| == |c| && b[..i] == c[..i] && b[i..j] == c[i..j]
    ensures b[..j] == c[..j]
  {
    assert b[..j] == b[..i] + b[i..j] && c[..j] == c[..i] + c[i..j];
  }
}
