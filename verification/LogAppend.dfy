/** Framing a transaction for the log: what is encoded is what opens, and a log
    grown only by appends opens to exactly what was appended. */
module LogAppend {
  import opened Bits
  import opened ChangeLog
  import opened Basics

  /** One family's records, encoded. */
  datatype Payload = Payload(family: nat, count: nat, bytes: seq<U8>)

  /** A record's family and encoding, which the record codec pads to eight bytes. */
  datatype Encoded = Encoded(family: nat, bytes: seq<U8>) {
    predicate Valid() { family < 4 && |bytes| >= 16 && |bytes| % 8 == 0 }
  }

  ghost predicate DigestOk(digest: seq<U8> -> seq<U8>) {
    forall s :: |digest(s)| == 16
  }

  predicate PayloadOk(p: Payload) {
    p.family < 4 && 0 < p.count < TWO32 && |p.bytes| % 8 == 0 && 16 * p.count <= |p.bytes|
  }

  ghost predicate PayloadsOk(ps: seq<Payload>) {
    && 1 <= |ps| <= 4 && (forall k :: 0 <= k < |ps| ==> PayloadOk(ps[k]))
    && forall j, k :: 0 <= j < k < |ps| ==> ps[j].family != ps[k].family
  }

  function Body(ps: seq<Payload>): seq<U8> {
    if ps == [] then [] else Body(ps[..|ps| - 1]) + ps[|ps| - 1].bytes
  }

  function Length(ps: seq<Payload>): nat {
    96 + 48 * |ps| + |Body(ps)|
  }

  function Zeros(n: nat): seq<U8> {
    seq(n, _ => 0)
  }

  function Head(ps: seq<Payload>, sequence: U64, previous: U64, counters: seq<U32>): (s: seq<U8>)
    requires |counters| == 3
    ensures |s| == 64
  {
    TX_MAGIC + ToBytes(VERSION, 4) + ToBytes(|ps|, 4) + ToBytes(Length(ps), 8) + ToBytes(sequence, 8) + ToBytes(previous, 8)
    + ToBytes(counters[0], 4) + ToBytes(counters[1], 4) + ToBytes(counters[2], 4) + Zeros(12)
  }

  function Descriptor(ps: seq<Payload>, k: nat, digest: seq<U8> -> seq<U8>): seq<U8>
    requires k < |ps|
  {
    ToBytes(ps[k].family, 2) + Zeros(2) + ToBytes(ps[k].count, 4) + ToBytes(64 + 48 * |ps| + |Body(ps[..k])|, 8)
    + ToBytes(|ps[k].bytes|, 8) + digest(ps[k].bytes) + Zeros(8)
  }

  function Descriptors(ps: seq<Payload>, k: nat, digest: seq<U8> -> seq<U8>): seq<U8>
    requires k <= |ps|
  {
    if k == 0 then [] else Descriptors(ps, k - 1, digest) + Descriptor(ps, k - 1, digest)
  }

  function Framing(ps: seq<Payload>, sequence: U64, previous: U64, counters: seq<U32>, digest: seq<U8> -> seq<U8>): seq<U8>
    requires |counters| == 3
  {
    Head(ps, sequence, previous, counters) + Descriptors(ps, |ps|, digest)
  }

  function Footer(ps: seq<Payload>, sequence: U64, framing: seq<U8>, digest: seq<U8> -> seq<U8>): seq<U8> {
    ToBytes(sequence, 8) + ToBytes(Length(ps), 8) + digest(framing)
  }

  /** A transaction's bytes. */
  function Frame(ps: seq<Payload>, sequence: U64, previous: U64, counters: seq<U32>, digest: seq<U8> -> seq<U8>): seq<U8>
    requires |counters| == 3
  {
    var framing := Framing(ps, sequence, previous, counters, digest);
    framing + Body(ps) + Footer(ps, sequence, framing, digest)
  }

  // ---- fields of what was written ----

  lemma FieldBack(x: nat, n: nat)
    requires x < Pow2(8 * n)
    ensures FromBytes(ToBytes(x, n)) == x
  {
    ToFromBytes(x, n);
    LowSmall(x, 8 * n);
  }

  lemma Widths()
    ensures Pow2(16) == 65536 && Pow2(32) == TWO32 && Pow2(64) == TWO64
  {
    Pow2Constants();
    Pow2Add(8, 8);
  }

  lemma HeadFields(ps: seq<Payload>, sequence: U64, previous: U64, counters: seq<U32>)
    requires |counters| == 3 && |ps| <= 4 && Length(ps) < TWO64
    ensures var s := Head(ps, sequence, previous, counters);
      && s[0..8] == TX_MAGIC && FromBytes(s[8..12]) == VERSION && FromBytes(s[12..16]) == |ps|
      && FromBytes(s[16..24]) == Length(ps) && FromBytes(s[24..32]) == sequence && FromBytes(s[32..40]) == previous
      && FromBytes(s[40..44]) == counters[0] && FromBytes(s[44..48]) == counters[1] && FromBytes(s[48..52]) == counters[2]
      && s[52..64] == Zeros(12)
  {
    hide FromBytes, ToBytes, Length, Pow2;
    Widths();
    var s := Head(ps, sequence, previous, counters);
    HeadSlices(ps, sequence, previous, counters);
    FieldBack(VERSION, 4);
    FieldBack(|ps|, 4);
    FieldBack(Length(ps), 8);
    FieldBack(sequence, 8);
    FieldBack(previous, 8);
    FieldBack(counters[0], 4);
    FieldBack(counters[1], 4);
    FieldBack(counters[2], 4);
  }

  lemma HeadSlices(ps: seq<Payload>, sequence: U64, previous: U64, counters: seq<U32>)
    requires |counters| == 3
    ensures var s := Head(ps, sequence, previous, counters);
      && s[0..8] == TX_MAGIC && s[8..12] == ToBytes(VERSION, 4) && s[12..16] == ToBytes(|ps|, 4)
      && s[16..24] == ToBytes(Length(ps), 8) && s[24..32] == ToBytes(sequence, 8) && s[32..40] == ToBytes(previous, 8)
      && s[40..44] == ToBytes(counters[0], 4) && s[44..48] == ToBytes(counters[1], 4) && s[48..52] == ToBytes(counters[2], 4)
      && s[52..64] == Zeros(12)
  {
    hide ToBytes, Length;
    var s := Head(ps, sequence, previous, counters);
    assert s[0..8] == TX_MAGIC;
    assert s[8..12] == ToBytes(VERSION, 4);
    assert s[12..16] == ToBytes(|ps|, 4);
    assert s[16..24] == ToBytes(Length(ps), 8);
    assert s[24..32] == ToBytes(sequence, 8);
    assert s[32..40] == ToBytes(previous, 8);
    assert s[40..44] == ToBytes(counters[0], 4);
    assert s[44..48] == ToBytes(counters[1], 4);
    assert s[48..52] == ToBytes(counters[2], 4);
    assert s[52..64] == Zeros(12);
  }

  lemma DescriptorFields(ps: seq<Payload>, k: nat, digest: seq<U8> -> seq<U8>)
    requires k < |ps| && PayloadsOk(ps) && DigestOk(digest) && Length(ps) < TWO64
    ensures var s := Descriptor(ps, k, digest);
      && |s| == 48
      && FromBytes(s[0..2]) == ps[k].family && s[2..4] == Zeros(2) && FromBytes(s[4..8]) == ps[k].count
      && FromBytes(s[8..16]) == 64 + 48 * |ps| + |Body(ps[..k])| && FromBytes(s[16..24]) == |ps[k].bytes|
      && s[24..40] == digest(ps[k].bytes) && s[40..48] == Zeros(8)
  {
    hide FromBytes, ToBytes, Body, Pow2;
    Widths();
    BodyPrefix(ps, k);
    var s := Descriptor(ps, k, digest);
    assert s[0..2] == ToBytes(ps[k].family, 2);
    assert s[2..4] == Zeros(2);
    assert s[4..8] == ToBytes(ps[k].count, 4);
    assert s[8..16] == ToBytes(64 + 48 * |ps| + |Body(ps[..k])|, 8);
    assert s[16..24] == ToBytes(|ps[k].bytes|, 8);
    assert s[24..40] == digest(ps[k].bytes);
    assert s[40..48] == Zeros(8);
    FieldBack(ps[k].family, 2);
    FieldBack(ps[k].count, 4);
    FieldBack(64 + 48 * |ps| + |Body(ps[..k])|, 8);
    FieldBack(|ps[k].bytes|, 8);
  }

  /** Earlier bodies and this one fit before the footer. */
  lemma {:induction false} BodyPrefix(ps: seq<Payload>, k: nat)
    requires k < |ps|
    ensures |Body(ps[..k])| + |ps[k].bytes| == |Body(ps[..k + 1])| <= |Body(ps)|
    decreases |ps|
  {
    assert ps[..k + 1][..k] == ps[..k];
    if k + 1 == |ps| {
      assert ps[..k + 1] == ps;
    } else {
      var front := ps[..|ps| - 1];
      BodyPrefix(front, k);
      assert front[..k] == ps[..k] && front[..k + 1] == ps[..k + 1];
    }
  }

  lemma {:induction false} DescriptorsAt(ps: seq<Payload>, n: nat, k: nat, digest: seq<U8> -> seq<U8>)
    requires n <= |ps| && PayloadsOk(ps) && DigestOk(digest) && Length(ps) < TWO64
    ensures |Descriptors(ps, n, digest)| == 48 * n
    ensures k < n ==> Descriptors(ps, n, digest)[48 * k..48 * k + 48] == Descriptor(ps, k, digest)
  {
    hide Descriptor, Length, PayloadsOk;
    if n > 0 {
      DescriptorsAt(ps, n - 1, k, digest);
      DescriptorFields(ps, n - 1, digest);
    }
  }

  // ---- in the log ----

  /** A part of what was appended, found in the longer file. */
  lemma Inside(log: seq<U8>, a: seq<U8>, b: seq<U8>, c: seq<U8>, i: nat, j: nat)
    requires i <= j <= |b|
    ensures (log + (a + b + c))[|log| + |a| + i..|log| + |a| + j] == b[i..j]
  {
  }

  lemma FrameLength(ps: seq<Payload>, sequence: U64, previous: U64, counters: seq<U32>, digest: seq<U8> -> seq<U8>)
    requires |counters| == 3 && PayloadsOk(ps) && DigestOk(digest) && Length(ps) < TWO64
    ensures |Framing(ps, sequence, previous, counters, digest)| == 64 + 48 * |ps|
    ensures |Frame(ps, sequence, previous, counters, digest)| == Length(ps)
  {
    hide Head, Body, Descriptors, PayloadsOk;
    DescriptorsAt(ps, |ps|, 0, digest);
  }

  /** Slices of the appended head and descriptors, in place. */
  lemma FramingAt(log: seq<U8>, ps: seq<Payload>, sequence: U64, previous: U64, counters: seq<U32>, digest: seq<U8> -> seq<U8>, i: nat, j: nat)
    requires |counters| == 3 && PayloadsOk(ps) && DigestOk(digest) && Length(ps) < TWO64 && i <= j <= 64 + 48 * |ps|
    ensures var s := log + Frame(ps, sequence, previous, counters, digest);
      && |s| == |log| + Length(ps)
      && s[|log| + i..|log| + j] == Framing(ps, sequence, previous, counters, digest)[i..j]
  {
    hide Framing, Footer, Body, PayloadsOk;
    FrameLength(ps, sequence, previous, counters, digest);
    var framing := Framing(ps, sequence, previous, counters, digest);
    var rest := Body(ps) + Footer(ps, sequence, framing, digest);
    assert Frame(ps, sequence, previous, counters, digest) == [] + framing + rest;
    Inside(log, [], framing, rest, i, j);
  }

  lemma HeadAt(log: seq<U8>, ps: seq<Payload>, sequence: U64, previous: U64, counters: seq<U32>, digest: seq<U8> -> seq<U8>)
    requires |counters| == 3 && PayloadsOk(ps) && DigestOk(digest) && Length(ps) < TWO64
    ensures var s, at := log + Frame(ps, sequence, previous, counters, digest), |log|;
      && |s| == at + Length(ps) && s[at..at + 8] == TX_MAGIC && U32At(s, at + 8) == VERSION && CountOf(s, at) == |ps|
      && LengthOf(s, at) == Length(ps) && SequenceOf(s, at) == sequence && U64At(s, at + 32) == previous
      && CountersOf(s, at) == counters && Zero(s, at + 52, 12)
  {
    hide Frame, Framing, Head, FromBytes, PayloadsOk;
    var s, at := log + Frame(ps, sequence, previous, counters, digest), |log|;
    Few(ps);
    HeadFields(ps, sequence, previous, counters);
    forall i: nat, j: nat | i <= j <= 64
      ensures |s| == at + Length(ps) && s[at + i..at + j] == Head(ps, sequence, previous, counters)[i..j]
    {
      FramingAt(log, ps, sequence, previous, counters, digest, i, j);
      FramingHead(ps, sequence, previous, counters, digest, i, j);
    }
    FramingAt(log, ps, sequence, previous, counters, digest, 0, 0);
    HeadIs(s, at, Head(ps, sequence, previous, counters), ps, sequence, previous, counters);
  }

  lemma FramingHead(ps: seq<Payload>, sequence: U64, previous: U64, counters: seq<U32>, digest: seq<U8> -> seq<U8>, i: nat, j: nat)
    requires |counters| == 3 && i <= j <= 64
    ensures |Framing(ps, sequence, previous, counters, digest)| >= 64
    ensures Framing(ps, sequence, previous, counters, digest)[i..j] == Head(ps, sequence, previous, counters)[i..j]
  {
    hide Head, Descriptors;
  }

  lemma HeadIs(s: seq<U8>, at: nat, head: seq<U8>, ps: seq<Payload>, sequence: U64, previous: U64, counters: seq<U32>)
    requires |counters| == 3 && |head| == 64 && at + 64 <= |s|
    requires forall i: nat, j: nat :: i <= j <= 64 ==> s[at + i..at + j] == head[i..j]
    requires head[0..8] == TX_MAGIC && FromBytes(head[8..12]) == VERSION && FromBytes(head[12..16]) == |ps|
    requires FromBytes(head[16..24]) == Length(ps) && FromBytes(head[24..32]) == sequence && FromBytes(head[32..40]) == previous
    requires FromBytes(head[40..44]) == counters[0] && FromBytes(head[44..48]) == counters[1] && FromBytes(head[48..52]) == counters[2]
    requires head[52..64] == Zeros(12)
    ensures s[at..at + 8] == TX_MAGIC && U32At(s, at + 8) == VERSION && CountOf(s, at) == |ps|
    ensures LengthOf(s, at) == Length(ps) && SequenceOf(s, at) == sequence && U64At(s, at + 32) == previous
    ensures CountersOf(s, at) == counters && Zero(s, at + 52, 12)
  {
    hide FromBytes, Length;
    assert s[at + 0..at + 8] == head[0..8];
    assert s[at + 8..at + 12] == head[8..12];
    assert s[at + 12..at + 16] == head[12..16];
    assert s[at + 16..at + 24] == head[16..24];
    assert s[at + 24..at + 32] == head[24..32];
    assert s[at + 32..at + 40] == head[32..40];
    assert s[at + 40..at + 44] == head[40..44];
    assert s[at + 44..at + 48] == head[44..48];
    assert s[at + 48..at + 52] == head[48..52];
    assert s[at + 52..at + 64] == head[52..64];
  }

  lemma Few(ps: seq<Payload>)
    requires PayloadsOk(ps)
    ensures 1 <= |ps| <= 4 && forall k :: 0 <= k < |ps| ==> PayloadOk(ps[k])
  {
  }

  /** One descriptor's fields, in place. */
  lemma DescriptorAt(log: seq<U8>, ps: seq<Payload>, sequence: U64, previous: U64, counters: seq<U32>, digest: seq<U8> -> seq<U8>, k: nat)
    requires |counters| == 3 && PayloadsOk(ps) && DigestOk(digest) && Length(ps) < TWO64 && k < |ps|
    ensures var s, d := log + Frame(ps, sequence, previous, counters, digest), |log| + 64 + 48 * k;
      && |s| == |log| + Length(ps) && d + 48 <= |s|
      && U16At(s, d) == ps[k].family && Zero(s, d + 2, 2) && U32At(s, d + 4) == ps[k].count
      && U64At(s, d + 8) == 64 + 48 * |ps| + |Body(ps[..k])| && SizeOf(s, d) == |ps[k].bytes|
      && s[d + 24..d + 40] == digest(ps[k].bytes) && Zero(s, d + 40, 8)
  {
    hide Frame, Framing, FromBytes, PayloadsOk, Descriptors, Descriptor, Body;
    var s, d := log + Frame(ps, sequence, previous, counters, digest), |log| + 64 + 48 * k;
    DescriptorFields(ps, k, digest);
    forall i: nat, j: nat | i <= j <= 48
      ensures |s| == |log| + Length(ps) && s[d + i..d + j] == Descriptor(ps, k, digest)[i..j]
    {
      FramingAt(log, ps, sequence, previous, counters, digest, 64 + 48 * k + i, 64 + 48 * k + j);
      FramingDescriptor(ps, sequence, previous, counters, digest, k, i, j);
    }
    assert s[d + 0..d + 0] == Descriptor(ps, k, digest)[0..0];
    DescriptorFits(s, d, Descriptor(ps, k, digest), ps, k, digest);
  }

  lemma FramingDescriptor(ps: seq<Payload>, sequence: U64, previous: U64, counters: seq<U32>, digest: seq<U8> -> seq<U8>, k: nat, i: nat, j: nat)
    requires |counters| == 3 && PayloadsOk(ps) && DigestOk(digest) && Length(ps) < TWO64 && k < |ps| && i <= j <= 48
    ensures |Framing(ps, sequence, previous, counters, digest)| == 64 + 48 * |ps| && |Descriptor(ps, k, digest)| == 48
    ensures Framing(ps, sequence, previous, counters, digest)[64 + 48 * k + i..64 + 48 * k + j] == Descriptor(ps, k, digest)[i..j]
  {
    hide Head, Descriptors, Descriptor, PayloadsOk, Length;
    DescriptorsAt(ps, |ps|, k, digest);
    DescriptorFields(ps, k, digest);
    var all := Descriptors(ps, |ps|, digest);
    assert all[48 * k + i..48 * k + j] == all[48 * k..48 * k + 48][i..j];
    var framing := Framing(ps, sequence, previous, counters, digest);
    assert framing[64 + 48 * k + i..64 + 48 * k + j] == all[48 * k + i..48 * k + j];
  }

  lemma DescriptorFits(s: seq<U8>, d: nat, desc: seq<U8>, ps: seq<Payload>, k: nat, digest: seq<U8> -> seq<U8>)
    requires k < |ps| && |desc| == 48 && d + 48 <= |s|
    requires forall i: nat, j: nat :: i <= j <= 48 ==> s[d + i..d + j] == desc[i..j]
    requires FromBytes(desc[0..2]) == ps[k].family && desc[2..4] == Zeros(2) && FromBytes(desc[4..8]) == ps[k].count
    requires FromBytes(desc[8..16]) == 64 + 48 * |ps| + |Body(ps[..k])| && FromBytes(desc[16..24]) == |ps[k].bytes|
    requires desc[24..40] == digest(ps[k].bytes) && desc[40..48] == Zeros(8)
    ensures U16At(s, d) == ps[k].family && Zero(s, d + 2, 2) && U32At(s, d + 4) == ps[k].count
    ensures U64At(s, d + 8) == 64 + 48 * |ps| + |Body(ps[..k])| && SizeOf(s, d) == |ps[k].bytes|
    ensures s[d + 24..d + 40] == digest(ps[k].bytes) && Zero(s, d + 40, 8)
  {
    hide FromBytes, Body;
    assert s[d + 0..d + 2] == desc[0..2];
    assert s[d + 2..d + 4] == desc[2..4];
    assert s[d + 4..d + 8] == desc[4..8];
    assert s[d + 8..d + 16] == desc[8..16];
    assert s[d + 16..d + 24] == desc[16..24];
    assert s[d + 24..d + 40] == desc[24..40];
    assert s[d + 40..d + 48] == desc[40..48];
  }

  lemma {:induction false} CursorIs(log: seq<U8>, ps: seq<Payload>, sequence: U64, previous: U64, counters: seq<U32>, digest: seq<U8> -> seq<U8>, k: nat)
    requires |counters| == 3 && PayloadsOk(ps) && DigestOk(digest) && Length(ps) < TWO64 && k <= |ps|
    ensures var s := log + Frame(ps, sequence, previous, counters, digest);
      |log| + 64 + 48 * |ps| <= |s| && Cursor(s, |log|, |ps|, k) == 64 + 48 * |ps| + |Body(ps[..k])|
  {
    hide Frame, PayloadsOk, SizeOf, Body, Length, U16At, U32At, U64At, Zero;
    BodyNone(ps);
    FramingAt(log, ps, sequence, previous, counters, digest, 0, 0);
    if k > 0 {
      CursorIs(log, ps, sequence, previous, counters, digest, k - 1);
      DescriptorAt(log, ps, sequence, previous, counters, digest, k - 1);
      BodyPrefix(ps, k - 1);
    }
  }

  lemma BodyNone(ps: seq<Payload>)
    ensures Body(ps[..0]) == [] && Length(ps) >= 96 + 48 * |ps|
  {
  }

  lemma BodyPush(ps: seq<Payload>, p: Payload)
    ensures Body(ps + [p]) == Body(ps) + p.bytes
  {
    assert (ps + [p])[..|ps|] == ps;
  }

  /** The blocks an appended transaction opens with. */
  function BlocksOf(at: nat, ps: seq<Payload>, digest: seq<U8> -> seq<U8>): seq<Block>
    requires at + Length(ps) < TWO64 && forall k :: 0 <= k < |ps| ==> PayloadOk(ps[k])
  {
    seq(|ps|, k requires 0 <= k < |ps| => BlockOf(at, ps, k, digest))
  }

  function BlockOf(at: nat, ps: seq<Payload>, k: nat, digest: seq<U8> -> seq<U8>): Block
    requires k < |ps| && at + Length(ps) < TWO64 && PayloadOk(ps[k])
  {
    BodyPrefix(ps, k);
    Block(ps[k].family, ps[k].count, at + 64 + 48 * |ps| + |Body(ps[..k])|, |ps[k].bytes|, digest(ps[k].bytes))
  }

  lemma TiledNow(log: seq<U8>, ps: seq<Payload>, sequence: U64, previous: U64, counters: seq<U32>, digest: seq<U8> -> seq<U8>)
    requires |counters| == 3 && PayloadsOk(ps) && DigestOk(digest) && |log| + Length(ps) < TWO64
    ensures var s := log + Frame(ps, sequence, previous, counters, digest);
      |log| + 64 + 48 * |ps| <= |s| && Tiled(s, |log|, |ps|, Length(ps), BlocksOf(|log|, ps, digest))
  {
    hide Frame, PlacedAt, Body, Cursor;
    var s, at, blocks := log + Frame(ps, sequence, previous, counters, digest), |log|, BlocksOf(|log|, ps, digest);
    CursorIs(log, ps, sequence, previous, counters, digest, |ps|);
    assert ps[..|ps|] == ps;
    forall k: nat | k < |ps|
      ensures PlacedAt(s, at, |ps|, Length(ps), blocks, k)
    {
      PlacedNow(log, ps, sequence, previous, counters, digest, k);
    }
  }

  lemma PlacedNow(log: seq<U8>, ps: seq<Payload>, sequence: U64, previous: U64, counters: seq<U32>, digest: seq<U8> -> seq<U8>, k: nat)
    requires |counters| == 3 && PayloadsOk(ps) && DigestOk(digest) && |log| + Length(ps) < TWO64 && k < |ps|
    ensures var s := log + Frame(ps, sequence, previous, counters, digest);
      |log| + 64 + 48 * |ps| <= |s| && PlacedAt(s, |log|, |ps|, Length(ps), BlocksOf(|log|, ps, digest), k)
  {
    hide Frame, U16At, U32At, U64At, Zero, Body, Cursor;
    var s, at := log + Frame(ps, sequence, previous, counters, digest), |log|;
    CursorIs(log, ps, sequence, previous, counters, digest, k);
    DescriptorAt(log, ps, sequence, previous, counters, digest, k);
    BodyPrefix(ps, k);
    assert PayloadOk(ps[k]);
    forall j: nat | j < k
      ensures U16At(s, at + 64 + 48 * j) != U16At(s, at + 64 + 48 * k)
    {
      DescriptorAt(log, ps, sequence, previous, counters, digest, j);
    }
  }

  lemma FootNow(log: seq<U8>, ps: seq<Payload>, sequence: U64, previous: U64, counters: seq<U32>, digest: seq<U8> -> seq<U8>)
    requires |counters| == 3 && PayloadsOk(ps) && DigestOk(digest) && |log| + Length(ps) < TWO64
    ensures var s, at := log + Frame(ps, sequence, previous, counters, digest), |log|;
      && at + 96 + 48 * CountOf(s, at) <= at + LengthOf(s, at) <= |s| && FootOk(s, at, digest)
  {
    hide Head, Descriptors, PayloadsOk, U32At, FromBytes, ToBytes, Pow2;
    var framing := Framing(ps, sequence, previous, counters, digest);
    var foot := Footer(ps, sequence, framing, digest);
    var s, at := log + Frame(ps, sequence, previous, counters, digest), |log|;
    FrameLength(ps, sequence, previous, counters, digest);
    HeadAt(log, ps, sequence, previous, counters, digest);
    var front := framing + Body(ps);
    assert Frame(ps, sequence, previous, counters, digest) == front + foot + [];
    assert |foot| == 32 && at + |front| == at + Length(ps) - 32;
    Inside(log, front, foot, [], 0, 8);
    Inside(log, front, foot, [], 8, 16);
    Inside(log, front, foot, [], 16, 32);
    FramingAt(log, ps, sequence, previous, counters, digest, 0, 64 + 48 * |ps|);
    assert framing[0..64 + 48 * |ps|] == framing;
    assert foot[0..8] == ToBytes(sequence, 8) && foot[8..16] == ToBytes(Length(ps), 8) && foot[16..32] == digest(framing);
    Widths();
    FieldBack(sequence, 8);
    FieldBack(Length(ps), 8);
  }

  /** What was framed is read back. */
  function Appended(at: nat, ps: seq<Payload>, sequence: U64, counters: seq<U32>, digest: seq<U8> -> seq<U8>): Envelope
    requires at + Length(ps) < TWO64 && forall k :: 0 <= k < |ps| ==> PayloadOk(ps[k])
  {
    Envelope(sequence, counters, BlocksOf(at, ps, digest), at, Length(ps))
  }

  /** A block is where a payload's bytes are, and says what they are. */
  ghost predicate Stored(s: seq<U8>, b: Block, p: Payload, digest: seq<U8> -> seq<U8>) {
    && b.family == p.family && b.count == p.count && b.digest == digest(p.bytes)
    && b.offset + b.length <= |s| && s[b.offset..b.offset + b.length] == p.bytes
  }

  ghost predicate AllStored(s: seq<U8>, e: Envelope, ps: seq<Payload>, digest: seq<U8> -> seq<U8>) {
    |e.blocks| == |ps| && forall k: nat :: k < |ps| ==> Stored(s, e.blocks[k], ps[k], digest)
  }

  lemma {:induction false} BodyAt(ps: seq<Payload>, k: nat)
    requires k < |ps|
    ensures var at := |Body(ps[..k])|;
      at + |ps[k].bytes| <= |Body(ps)| && Body(ps)[at..at + |ps[k].bytes|] == ps[k].bytes
  {
    var front := ps[..|ps| - 1];
    if k < |front| {
      BodyAt(front, k);
      assert front[..k] == ps[..k];
    }
  }

  lemma StoredNow(log: seq<U8>, ps: seq<Payload>, sequence: U64, previous: U64, counters: seq<U32>, digest: seq<U8> -> seq<U8>)
    requires |counters| == 3 && PayloadsOk(ps) && DigestOk(digest) && |log| + Length(ps) < TWO64
    ensures var s := log + Frame(ps, sequence, previous, counters, digest);
      AllStored(s, Appended(|log|, ps, sequence, counters, digest), ps, digest)
  {
    hide Framing, Footer, Body, PayloadOk;
    FrameLength(ps, sequence, previous, counters, digest);
    var s, framing := log + Frame(ps, sequence, previous, counters, digest), Framing(ps, sequence, previous, counters, digest);
    var foot, e := Footer(ps, sequence, framing, digest), Appended(|log|, ps, sequence, counters, digest);
    forall k: nat | k < |ps|
      ensures Stored(s, e.blocks[k], ps[k], digest)
    {
      BodyAt(ps, k);
      BodyPrefix(ps, k);
      var i := |Body(ps[..k])|;
      Inside(log, framing, Body(ps), foot, i, i + |ps[k].bytes|);
    }
  }

  lemma FrameReadsBack(log: seq<U8>, ps: seq<Payload>, sequence: U64, previous: U64, before: seq<U32>, counters: seq<U32>, digest: seq<U8> -> seq<U8>)
    requires |before| == |counters| == 3 && counters[0] <= NONE - 16 && counters[1] != NONE
    requires forall i :: 0 <= i < 3 ==> before[i] <= counters[i]
    requires PayloadsOk(ps) && DigestOk(digest) && |log| + Length(ps) < TWO64
    requires sequence == previous + 1 && sequence != U64_MAX
    ensures var s := log + Frame(ps, sequence, previous, counters, digest);
      |s| == |log| + Length(ps)
      && IsTransaction(s, |log|, Length(ps), previous, before, digest, Appended(|log|, ps, sequence, counters, digest))
      && AllStored(s, Appended(|log|, ps, sequence, counters, digest), ps, digest)
  {
    StoredNow(log, ps, sequence, previous, counters, digest);
    hide AllStored, Frame, PayloadsOk, U32At, U64At, Zero, Body, FootOk, CountOf, LengthOf, SequenceOf, CountersOf, Tiled, BlocksOf;
    Few(ps);
    HeadAt(log, ps, sequence, previous, counters, digest);
    TiledNow(log, ps, sequence, previous, counters, digest);
    FootNow(log, ps, sequence, previous, counters, digest);
    LengthEight(ps);
  }

  lemma {:induction false} BodyEight(ps: seq<Payload>)
    requires forall k :: 0 <= k < |ps| ==> PayloadOk(ps[k])
    ensures |Body(ps)| % 8 == 0
  {
    if ps != [] {
      BodyEight(ps[..|ps| - 1]);
      assert PayloadOk(ps[|ps| - 1]);
    }
  }

  lemma LengthEight(ps: seq<Payload>)
    requires PayloadsOk(ps)
    ensures Length(ps) % 8 == 0
  {
    BodyEight(ps);
  }

  lemma MoreRoom(s: seq<U8>, at: nat, room: nat, more: nat, sequence: U64, counters: seq<U32>, digest: seq<U8> -> seq<U8>, e: Envelope)
    requires room <= more && at + more <= |s| && |counters| == 3
    requires IsTransaction(s, at, room, sequence, counters, digest, e)
    ensures IsTransaction(s, at, more, sequence, counters, digest, e)
  {
    hide FootOk, Tiled, U32At, U64At, Zero;
  }

  /** The manifest after an append. */
  function NextManifest(m: Manifest, ps: seq<Payload>, counters: seq<U32>): Manifest
    requires m.sequence + 1 < TWO64 && m.logEnd + Length(ps) < TWO64
  {
    m.(logEnd := m.logEnd + Length(ps), sequence := m.sequence + 1, counters := counters)
  }

  /** An accepted log with one more transaction, under its new manifest, is
      accepted with exactly that transaction more. */
  lemma AppendAccepted(log: seq<U8>, m: Manifest, base: seq<U32>, digest: seq<U8> -> seq<U8>, txs: seq<Envelope>,
                       ps: seq<Payload>, counters: seq<U32>)
    requires Accepted(log, m, base, digest, txs) && |log| == m.logEnd && |m.counters| == 3 && |base| == 3
    requires |counters| == 3 && counters[0] <= NONE - 16 && counters[1] != NONE && m.sequence + 1 < U64_MAX
    requires forall i :: 0 <= i < 3 ==> m.counters[i] <= counters[i]
    requires PayloadsOk(ps) && DigestOk(digest) && |log| + Length(ps) < TWO64
    ensures var s, e := log + Frame(ps, m.sequence + 1, m.sequence, counters, digest), Appended(|log|, ps, m.sequence + 1, counters, digest);
      Accepted(s, NextManifest(m, ps, counters), base, digest, txs + [e]) && AllStored(s, e, ps, digest)
  {
    hide AllStored, Frame, IsTransaction, PayloadsOk, BlocksOf, HeaderBytes, Length, Framed, U32At;
    Few(ps);
    BodyNone(ps);
    var s, next := log + Frame(ps, m.sequence + 1, m.sequence, counters, digest), NextManifest(m, ps, counters);
    var e := Appended(|log|, ps, m.sequence + 1, counters, digest);
    FrameReadsBack(log, ps, m.sequence + 1, m.sequence, m.counters, counters, digest);
    assert s[..|log|] == log && s[..64] == log[..64];
    forall i: nat | i < |txs + [e]|
      ensures FramedAt(s, next, base, digest, txs + [e], i)
    {
      if i < |txs| {
        OldStays(log, s, m, next, base, digest, txs, e, i);
      } else {
        NewHolds(s, next, base, digest, txs, e);
      }
    }
    FramedFrom(s, next, base, digest, txs + [e]);
    HeaderSame(log, s, m, next, digest);
  }

  /** Nor does it matter what was past the committed end: a transaction written
      there, before whatever is left beyond it, is accepted as over a clean end. */
  lemma AppendOverTail(file: seq<U8>, m: Manifest, base: seq<U32>, digest: seq<U8> -> seq<U8>, txs: seq<Envelope>,
                       ps: seq<Payload>, counters: seq<U32>, left: seq<U8>)
    requires Accepted(file, m, base, digest, txs) && |m.counters| == 3 && |base| == 3
    requires |counters| == 3 && counters[0] <= NONE - 16 && counters[1] != NONE && m.sequence + 1 < U64_MAX
    requires forall i :: 0 <= i < 3 ==> m.counters[i] <= counters[i]
    requires PayloadsOk(ps) && DigestOk(digest) && m.logEnd + Length(ps) < TWO64
    ensures var s, e := file[..m.logEnd] + Frame(ps, m.sequence + 1, m.sequence, counters, digest) + left,
                        Appended(m.logEnd, ps, m.sequence + 1, counters, digest);
      Accepted(s, NextManifest(m, ps, counters), base, digest, txs + [e]) && AllStored(s, e, ps, digest)
  {
    hide Frame, Length, Framed, HeaderBytes, U32At;
    var log, frame := file[..m.logEnd], Frame(ps, m.sequence + 1, m.sequence, counters, digest);
    PrefixDecides(file, log, m, base, digest, txs);
    AppendAccepted(log, m, base, digest, txs, ps, counters);
    var next := NextManifest(m, ps, counters);
    assert (log + frame + left)[..next.logEnd] == (log + frame)[..next.logEnd];
    var e := Appended(m.logEnd, ps, m.sequence + 1, counters, digest);
    PrefixDecides(log + frame, log + frame + left, next, base, digest, txs + [e]);
    StillStored(log + frame, left, e, ps, digest);
  }

  lemma StillStored(s: seq<U8>, left: seq<U8>, e: Envelope, ps: seq<Payload>, digest: seq<U8> -> seq<U8>)
    requires AllStored(s, e, ps, digest)
    ensures AllStored(s + left, e, ps, digest)
  {
    forall k: nat | k < |ps|
      ensures Stored(s + left, e.blocks[k], ps[k], digest)
    {
      assert Stored(s, e.blocks[k], ps[k], digest);
    }
  }

  lemma NewHolds(s: seq<U8>, m: Manifest, base: seq<U32>, digest: seq<U8> -> seq<U8>, txs: seq<Envelope>, e: Envelope)
    requires EndOf(txs) < m.logEnd <= |s| && |CountersAfter(base, txs)| == 3
    requires IsTransaction(s, EndOf(txs), m.logEnd - EndOf(txs), SequenceAfter(m, txs), CountersAfter(base, txs), digest, e)
    ensures FramedAt(s, m, base, digest, txs + [e], |txs|)
  {
    hide IsTransaction;
    assert (txs + [e])[..|txs|] == txs;
  }

  lemma OldStays(log: seq<U8>, s: seq<U8>, m: Manifest, next: Manifest, base: seq<U32>, digest: seq<U8> -> seq<U8>, txs: seq<Envelope>,
                 e: Envelope, i: nat)
    requires Framed(log, m, base, digest, txs) && i < |txs| && m.logEnd <= |log| && m.logEnd <= next.logEnd <= |s|
    requires SamePrefix(log, s, m.logEnd) && next.checkpointSequence == m.checkpointSequence
    ensures FramedAt(s, next, base, digest, txs + [e], i)
  {
    hide IsTransaction, SamePrefix, Framed;
    FramedIs(log, m, base, digest, txs, i);
    var front := txs[..i];
    assert (txs + [e])[..i] == front;
    SameTransaction(log, s, EndOf(front), m.logEnd - EndOf(front), SequenceAfter(m, front), CountersAfter(base, front), digest, txs[i]);
    MoreRoom(s, EndOf(front), m.logEnd - EndOf(front), next.logEnd - EndOf(front), SequenceAfter(m, front), CountersAfter(base, front), digest, txs[i]);
  }

  lemma FramedFrom(s: seq<U8>, m: Manifest, base: seq<U32>, digest: seq<U8> -> seq<U8>, txs: seq<Envelope>)
    requires forall i: nat :: i < |txs| ==> FramedAt(s, m, base, digest, txs, i)
    ensures Framed(s, m, base, digest, txs)
  {
    hide FramedAt;
  }

  lemma HeaderSame(log: seq<U8>, s: seq<U8>, m: Manifest, next: Manifest, digest: seq<U8> -> seq<U8>)
    requires 64 <= |log| <= |s| && s[..|log|] == log && next.identity == m.identity && next.checkpointSequence == m.checkpointSequence
    ensures U32At(s, 8) == U32At(log, 8)
    ensures forall version: nat :: HeaderBytes(next, version, digest) == HeaderBytes(m, version, digest)
  {
    hide FromBytes;
    assert s[8..12] == log[8..12];
  }

  /** A fresh log, with its header only, is accepted empty. */
  lemma FreshAccepted(m: Manifest, digest: seq<U8> -> seq<U8>)
    requires m.Valid() && DigestOk(digest) && m.logEnd == HEADER && m.sequence == m.checkpointSequence
    ensures Accepted(HeaderBytes(m, VERSION, digest), m, m.counters, digest, [])
  {
    hide FromBytes, ToBytes, Pow2;
    var s := HeaderBytes(m, VERSION, digest);
    assert s[8..12] == ToBytes(VERSION, 4);
    Widths();
    FieldBack(VERSION, 4);
    assert s[..64] == s;
  }

  // ---- encoding a change set ----

  function BytesOf(records: seq<Encoded>, family: nat): seq<U8> {
    if records == [] then []
    else
      var last := records[|records| - 1];
      BytesOf(records[..|records| - 1], family) + if last.family == family then last.bytes else []
  }

  /** Each record's bytes follow those of the family's records before it. */
  lemma {:induction false} RecordAt(records: seq<Encoded>, i: nat)
    requires i < |records|
    ensures var r, bytes := records[i], BytesOf(records, records[i].family);
      var at := |BytesOf(records[..i], r.family)|;
      at + |r.bytes| <= |bytes| && bytes[at..at + |r.bytes|] == r.bytes
  {
    var front := records[..|records| - 1];
    if i < |front| {
      RecordAt(front, i);
      assert front[..i] == records[..i];
    }
  }

  function CountIn(records: seq<Encoded>, family: nat): nat {
    if records == [] then 0
    else CountIn(records[..|records| - 1], family) + if records[|records| - 1].family == family then 1 else 0
  }

  /** A payload for each of the first families that has records, in order. */
  function Payloads(records: seq<Encoded>, families: nat): seq<Payload> {
    if families == 0 then []
    else
      var f := families - 1;
      Payloads(records, f)
      + if CountIn(records, f) == 0 then [] else [Payload(f, CountIn(records, f), BytesOf(records, f))]
  }

  /** A count is the number of the family's records. */
  lemma {:induction false} CountIs(records: seq<Encoded>, family: nat)
    ensures CountIn(records, family) == |set i | 0 <= i < |records| && records[i].family == family|
  {
    var all := set i | 0 <= i < |records| && records[i].family == family;
    if records != [] {
      var n := |records| - 1;
      var front := records[..n];
      CountIs(front, family);
      var few := set i | 0 <= i < |front| && front[i].family == family;
      assert all == few + if records[n].family == family then {n} else {};
    } else {
      assert all == {};
    }
  }

  /** Every family with records has its payload, with all their bytes. */
  lemma {:induction false} FamilyPayload(records: seq<Encoded>, families: nat, f: nat)
    requires f < families && CountIn(records, f) > 0
    ensures Payload(f, CountIn(records, f), BytesOf(records, f)) in Payloads(records, families)
  {
    if f < families - 1 {
      FamilyPayload(records, families - 1, f);
    }
  }

  /** A change set's records make payloads that can be framed. */
  lemma PayloadsFrame(records: seq<Encoded>)
    requires records != [] && |records| < TWO32 && forall r :: r in records ==> r.Valid()
    ensures PayloadsOk(Payloads(records, 4))
  {
    hide BytesOf, CountIn, Payloads, PayloadOk;
    PayloadsTo(records, 4);
    var r := records[|records| - 1];
    assert r in records;
    HasRecords(records, r.family);
  }

  lemma {:induction false} PayloadsTo(records: seq<Encoded>, families: nat)
    requires |records| < TWO32 && families <= 4 && forall r :: r in records ==> r.Valid()
    ensures var ps := Payloads(records, families);
      && |ps| <= families && (forall k :: 0 <= k < |ps| ==> PayloadOk(ps[k]) && ps[k].family < families)
      && (forall j, k :: 0 <= j < k < |ps| ==> ps[j].family != ps[k].family)
      && ((exists f: nat :: f < families && CountIn(records, f) > 0) ==> |ps| >= 1)
  {
    hide BytesOf, CountIn;
    if families > 0 {
      PayloadsTo(records, families - 1);
      FamilyBytes(records, families - 1);
    }
  }

  lemma HasRecords(records: seq<Encoded>, family: nat)
    requires records != [] && records[|records| - 1].family == family
    ensures CountIn(records, family) > 0
  {
  }

  lemma {:induction false} FamilyBytes(records: seq<Encoded>, family: nat)
    requires forall r :: r in records ==> r.Valid()
    ensures CountIn(records, family) <= |records|
    ensures |BytesOf(records, family)| % 8 == 0 && 16 * CountIn(records, family) <= |BytesOf(records, family)|
  {
    if records != [] {
      assert records[|records| - 1] in records;
      FamilyBytes(records[..|records| - 1], family);
    }
  }

  /** The first `n` records can be framed: all decode, and their counts and
      length are 32-bit and 64-bit numbers. */
  ghost predicate Sizable(records: seq<Encoded>, n: nat, decodes: Encoded -> bool)
    requires n <= |records|
  {
    && (forall i :: 0 <= i < n ==> decodes(records[i]))
    && (forall f: nat :: f < 4 ==> CountIn(records[..n], f) < TWO32)
    && 96 + Total(records[..n], 4) < TWO64
  }

  /** The framed length, found without keeping any record's encoding, or nothing
      for what cannot be framed. */
  method CheckedSize(records: seq<Encoded>, decodes: Encoded -> bool) returns (r: Option<nat>)
    requires forall r :: r in records ==> r.Valid()
    ensures r.Some? <==> Sizable(records, |records|, decodes)
    ensures r.Some? ==> r.value == Length(Payloads(records, 4))
  {
    hide *;
    var counts := [0, 0, 0, 0];
    var length: nat := 96;
    SizeNone(records);
    SizableNone(records, decodes);
    for i := 0 to |records|
      invariant |counts| == 4 && forall f :: 0 <= f < 4 ==> counts[f] == CountIn(records[..i], f)
      invariant length == 96 + Total(records[..i], 4)
      invariant Sizable(records, i, decodes)
    {
      SizeStep(records, i);
      SizableStep(records, i, decodes);
      SizableFewer(records, i + 1, |records|, decodes);
      var f := records[i].family;
      if !decodes(records[i]) || counts[f] + 1 == TWO32 || length + |records[i].bytes| >= TWO64 {
        return None;
      }
      counts := counts[f := counts[f] + 1];
      length := length + |records[i].bytes|;
    }
    assert records[..|records|] == records;
    SizeIs(records, 4);
    var blocks: nat := 0;
    PayloadNext(records, 0);
    for f := 0 to 4
      invariant blocks == |Payloads(records, f)|
    {
      PayloadNext(records, f);
      if counts[f] != 0 {
        blocks := blocks + 1;
      }
    }
    LengthIs(Payloads(records, 4));
    r := Some(length + blocks * 48);
  }

  /** Bytes of the first families together. */
  function Total(records: seq<Encoded>, families: nat): nat {
    if families == 0 then 0 else Total(records, families - 1) + |BytesOf(records, families - 1)|
  }

  lemma LengthIs(ps: seq<Payload>)
    ensures Length(ps) == 96 + 48 * |ps| + |Body(ps)|
  {
  }

  lemma SizeNone(records: seq<Encoded>)
    ensures Total(records[..0], 4) == 0 && forall f: nat :: CountIn(records[..0], f) == 0
  {
    assert records[..0] == [];
    assert Total(records[..0], 3) == Total(records[..0], 2) == Total(records[..0], 1) == 0;
  }

  lemma SizableNone(records: seq<Encoded>, decodes: Encoded -> bool)
    ensures Sizable(records, 0, decodes)
  {
    hide BytesOf, CountIn, Total;
    SizeNone(records);
  }

  lemma SizableStep(records: seq<Encoded>, i: nat, decodes: Encoded -> bool)
    requires i < |records| && records[i].Valid()
    ensures Sizable(records, i, decodes) ==> CountIn(records[..i], records[i].family) < TWO32
    ensures Sizable(records, i + 1, decodes) <==>
      && Sizable(records, i, decodes)
      && decodes(records[i]) && CountIn(records[..i], records[i].family) + 1 < TWO32
      && 96 + Total(records[..i], 4) + |records[i].bytes| < TWO64
  {
    hide BytesOf, Total;
    TotalStep(records, i, 4);
    assert records[..i + 1][..i] == records[..i];
    var family, longer := records[i].family, records[..i + 1];
    forall f: nat
      ensures CountIn(longer, f) == CountIn(records[..i], f) + if family == f then 1 else 0
    {
    }
    hide CountIn;
    if Sizable(records, i + 1, decodes) {
      assert CountIn(records[..i + 1], family) < TWO32;
      forall f: nat | f < 4
        ensures CountIn(records[..i], f) < TWO32
      {
        assert CountIn(records[..i + 1], f) < TWO32;
      }
      assert forall j :: 0 <= j < i ==> decodes(records[j]);
      assert Sizable(records, i, decodes);
    }
    if Sizable(records, i, decodes) && decodes(records[i]) && CountIn(records[..i], family) + 1 < TWO32
       && 96 + Total(records[..i], 4) + |records[i].bytes| < TWO64 {
      forall f: nat | f < 4
        ensures CountIn(longer, f) < TWO32
      {
        assert CountIn(records[..i], f) < TWO32;
      }
      assert forall j :: 0 <= j < i + 1 ==> decodes(records[j]);
    }
  }

  lemma {:induction false} SizableFewer(records: seq<Encoded>, i: nat, n: nat, decodes: Encoded -> bool)
    requires i <= n <= |records| && forall r :: r in records ==> r.Valid()
    ensures Sizable(records, n, decodes) ==> Sizable(records, i, decodes)
    decreases n
  {
    hide Sizable;
    if i < n {
      assert records[n - 1] in records;
      SizableStep(records, n - 1, decodes);
      SizableFewer(records, i, n - 1, decodes);
    }
  }

  lemma SizeStep(records: seq<Encoded>, i: nat)
    requires i < |records| && forall r :: r in records ==> r.Valid()
    ensures records[i].family < 4 && Total(records[..i + 1], 4) == Total(records[..i], 4) + |records[i].bytes|
    ensures forall f: nat :: CountIn(records[..i + 1], f) == CountIn(records[..i], f) + if records[i].family == f then 1 else 0
  {
    assert records[i] in records;
    assert records[..i + 1][..i] == records[..i];
    TotalStep(records, i, 4);
  }

  lemma {:induction false} TotalStep(records: seq<Encoded>, i: nat, families: nat)
    requires i < |records|
    ensures Total(records[..i + 1], families) == Total(records[..i], families) + if records[i].family < families then |records[i].bytes| else 0
  {
    if families > 0 {
      TotalStep(records, i, families - 1);
      assert records[..i + 1][..i] == records[..i];
    }
  }

  lemma PayloadNext(records: seq<Encoded>, f: nat)
    ensures |Payloads(records, f + 1)| == |Payloads(records, f)| + if CountIn(records, f) == 0 then 0 else 1
    ensures Payloads(records, 0) == []
  {
  }

  /** A family without records has no bytes. */
  lemma {:induction false} NoBytes(records: seq<Encoded>, family: nat)
    requires CountIn(records, family) == 0
    ensures BytesOf(records, family) == []
  {
    if records != [] {
      NoBytes(records[..|records| - 1], family);
    }
  }

  lemma {:induction false} SizeIs(records: seq<Encoded>, families: nat)
    ensures |Body(Payloads(records, families))| == Total(records, families)
  {
    hide CountIn, BytesOf, Body;
    if families == 0 {
      BodyNone([]);
      assert Payloads(records, 0) == [][..0];
    } else {
      SizeIs(records, families - 1);
      var front, f := Payloads(records, families - 1), families - 1;
      if CountIn(records, f) == 0 {
        NoBytes(records, f);
        assert Payloads(records, families) == front;
      } else {
        BodyPush(front, Payload(f, CountIn(records, f), BytesOf(records, f)));
      }
    }
  }
}
