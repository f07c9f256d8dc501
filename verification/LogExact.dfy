/** The framing leaves no choice: whatever opens as a transaction is, byte for
    byte, the frame of the payloads it holds. */
module LogExact {
  import opened Bits
  import opened ChangeLog
  import opened LogAppend

  /** The payloads that blocks place in a file. */
  function PayloadsOf(s: seq<U8>, blocks: seq<Block>): seq<Payload>
    requires forall k: nat :: k < |blocks| ==> blocks[k].offset + blocks[k].length <= |s|
  {
    seq(|blocks|, k requires 0 <= k < |blocks| =>
      Payload(blocks[k].family, blocks[k].count, s[blocks[k].offset..blocks[k].offset + blocks[k].length]))
  }

  ghost predicate InFile(s: seq<U8>, blocks: seq<Block>) {
    forall k: nat :: k < |blocks| ==> blocks[k].offset + blocks[k].length <= |s|
  }

  /** What loading checks of each block. */
  ghost predicate Genuine(s: seq<U8>, blocks: seq<Block>, digest: seq<U8> -> seq<U8>) {
    forall k: nat :: k < |blocks| ==> GenuineAt(s, blocks[k], digest)
  }

  predicate GenuineAt(s: seq<U8>, b: Block, digest: seq<U8> -> seq<U8>) {
    b.offset + b.length <= |s| && b.digest == digest(s[b.offset..b.offset + b.length])
  }

  /** A transaction of this format whose blocks are genuine is the frame of its
      payloads, and its counters are in order. */
  lemma OnlyFrames(s: seq<U8>, at: nat, room: nat, sequence: U64, before: seq<U32>, digest: seq<U8> -> seq<U8>, e: Envelope)
    requires at + room <= |s| && |before| == 3 && DigestOk(digest)
    requires IsTransaction(s, at, room, sequence, before, digest, e)
    requires U32At(s, at + 8) == VERSION && Genuine(s, e.blocks, digest)
    ensures InFile(s, e.blocks) && e.length <= room && sequence + 1 < U64_MAX
    ensures var ps := PayloadsOf(s, e.blocks);
      && PayloadsOk(ps) && Length(ps) == e.length && |e.counters| == 3
      && s[at..at + e.length] == Frame(ps, sequence + 1, sequence, e.counters, digest)
      && AllStored(s, e, ps, digest)
    ensures e.sequence == sequence + 1 && e.at == at
    ensures e.counters[0] <= NONE - 16 && e.counters[1] != NONE && forall i :: 0 <= i < 3 ==> before[i] <= e.counters[i]
  {
    hide HeadOk, FootOk, Tiled, Genuine, PayloadsOk, Frame, Length, Body, U32At, U64At, CountOf, LengthOf, SequenceOf, CountersOf, PayloadsOf;
    HeadGives(s, at, room, sequence, before);
    TiledGives(s, at, sequence, e.length, e.blocks, digest);
    var ps := PayloadsOf(s, e.blocks);
    var n := |ps|;
    HeadBytes(s, at, room, sequence, before, ps);
    DescriptorBytes(s, at, n, e.length, e.blocks, digest, n);
    BodyBytes(s, at, n, e.length, e.blocks, digest, n);
    FootBytes(s, at, digest, ps, sequence, e.counters);
    Assemble(s, at, ps, sequence, e.counters, digest);
    GenuineStored(s, e, digest);
  }

  lemma GenuineStored(s: seq<U8>, e: Envelope, digest: seq<U8> -> seq<U8>)
    requires Genuine(s, e.blocks, digest) && InFile(s, e.blocks)
    ensures AllStored(s, e, PayloadsOf(s, e.blocks), digest)
  {
    forall k: nat | k < |e.blocks|
      ensures Stored(s, e.blocks[k], PayloadsOf(s, e.blocks)[k], digest)
    {
      assert GenuineAt(s, e.blocks[k], digest);
    }
  }

  lemma HeadGives(s: seq<U8>, at: nat, room: nat, sequence: U64, before: seq<U32>)
    requires at + room <= |s| && |before| == 3 && HeadOk(s, at, room, sequence, before)
    ensures room >= 96 && 1 <= CountOf(s, at) <= 4 && 96 + 48 * CountOf(s, at) <= LengthOf(s, at) <= room
    ensures SequenceOf(s, at) == sequence + 1 < U64_MAX && U64At(s, at + 32) == sequence
    ensures s[at..at + 8] == TX_MAGIC && Zero(s, at + 52, 12)
    ensures var c := CountersOf(s, at);
      |c| == 3 && c[0] <= NONE - 16 && c[1] != NONE && forall i :: 0 <= i < 3 ==> before[i] <= c[i]
  {
    hide U32At, U64At;
  }

  lemma BlockGives(s: seq<U8>, at: nat, n: nat, length: nat, blocks: seq<Block>, k: nat)
    requires at + 64 + 48 * n <= |s| && Tiled(s, at, n, length, blocks) && k < n
    ensures |blocks| == n
    ensures var d, b := at + 64 + 48 * k, blocks[k];
      && U16At(s, d) == b.family < 4 && Zero(s, d + 2, 2) && U32At(s, d + 4) == b.count > 0 && Zero(s, d + 40, 8)
      && U64At(s, d + 8) == Cursor(s, at, n, k) && b.offset == at + Cursor(s, at, n, k)
      && U64At(s, d + 16) == b.length && s[d + 24..d + 40] == b.digest
      && b.length % 8 == 0 && b.count <= b.length / 16
      && Cursor(s, at, n, k + 1) == Cursor(s, at, n, k) + b.length
    ensures forall j: nat :: j < k ==> U16At(s, at + 64 + 48 * j) != blocks[k].family
  {
    hide U16At, U32At, U64At, Zero;
    assert PlacedAt(s, at, n, length, blocks, k);
  }

  lemma TiledGives(s: seq<U8>, at: nat, sequence: U64, length: nat, blocks: seq<Block>, digest: seq<U8> -> seq<U8>)
    requires at + 64 <= |s| && at + 64 + 48 * CountOf(s, at) <= |s| && 1 <= CountOf(s, at) <= 4
    requires Tiled(s, at, CountOf(s, at), length, blocks) && Genuine(s, blocks, digest)
    ensures InFile(s, blocks) && |blocks| == CountOf(s, at)
    ensures var ps := PayloadsOf(s, blocks);
      PayloadsOk(ps) && |ps| == |blocks| && Length(ps) == length
  {
    hide U16At, U32At, U64At, Zero, Cursor, CountOf, Body;
    var n := CountOf(s, at);
    assert |blocks| == n;
    forall k: nat | k < n
      ensures GenuineAt(s, blocks[k], digest)
    {
    }
    var ps := PayloadsOf(s, blocks);
    forall k: nat | k < n
      ensures PayloadOk(ps[k])
      ensures forall j: nat :: j < k ==> ps[j].family != ps[k].family
    {
      BlockGives(s, at, n, length, blocks, k);
      forall j: nat | j < k
        ensures ps[j].family != ps[k].family
      {
        BlockGives(s, at, n, length, blocks, j);
        assert U16At(s, at + 64 + 48 * j) == blocks[j].family;
      }
    }
    CursorGives(s, at, n, length, blocks, n);
    assert ps[..n] == ps;
  }

  lemma {:induction false} CursorGives(s: seq<U8>, at: nat, n: nat, length: nat, blocks: seq<Block>, k: nat)
    requires at + 64 + 48 * n <= |s| && Tiled(s, at, n, length, blocks) && InFile(s, blocks) && k <= n == |blocks|
    ensures Cursor(s, at, n, k) == 64 + 48 * n + |Body(PayloadsOf(s, blocks)[..k])|
  {
    hide U16At, U32At, U64At, Zero, Tiled, SizeOf;
    if k > 0 {
      CursorGives(s, at, n, length, blocks, k - 1);
      BlockGives(s, at, n, length, blocks, k - 1);
      BodyPrefix(PayloadsOf(s, blocks), k - 1);
    }
  }

  /** A field's bytes are the encoding of what it reads as. */
  lemma FieldBytes(s: seq<U8>, i: nat, n: nat)
    requires i + n <= |s|
    ensures s[i..i + n] == ToBytes(FromBytes(s[i..i + n]), n)
  {
    FromToBytes(s[i..i + n]);
  }

  lemma HeadBytes(s: seq<U8>, at: nat, room: nat, sequence: U64, before: seq<U32>, ps: seq<Payload>)
    requires at + room <= |s| && |before| == 3 && room >= 96
    requires s[at..at + 8] == TX_MAGIC && Zero(s, at + 52, 12) && U32At(s, at + 8) == VERSION
    requires CountOf(s, at) == |ps| && LengthOf(s, at) == Length(ps) && SequenceOf(s, at) == sequence + 1 && U64At(s, at + 32) == sequence
    ensures |CountersOf(s, at)| == 3 && sequence + 1 < TWO64
    ensures s[at..at + 64] == Head(ps, sequence + 1, sequence, CountersOf(s, at))
  {
    hide ToBytes, FromBytes, Length, Pow2;
    FieldBytes(s, at + 8, 4);
    FieldBytes(s, at + 12, 4);
    FieldBytes(s, at + 16, 8);
    FieldBytes(s, at + 24, 8);
    FieldBytes(s, at + 32, 8);
    FieldBytes(s, at + 40, 4);
    FieldBytes(s, at + 44, 4);
    FieldBytes(s, at + 48, 4);
    Ten(s, at);
  }

  /** A head is its ten fields. */
  lemma Ten(s: seq<U8>, at: nat)
    requires at + 64 <= |s|
    ensures s[at..at + 64] == s[at..at + 8] + s[at + 8..at + 12] + s[at + 12..at + 16] + s[at + 16..at + 24] + s[at + 24..at + 32]
      + s[at + 32..at + 40] + s[at + 40..at + 44] + s[at + 44..at + 48] + s[at + 48..at + 52] + s[at + 52..at + 64]
  {
    Joined(s, at, at + 8, at + 12);
    Joined(s, at, at + 12, at + 16);
    Joined(s, at, at + 16, at + 24);
    Joined(s, at, at + 24, at + 32);
    Joined(s, at, at + 32, at + 40);
    Joined(s, at, at + 40, at + 44);
    Joined(s, at, at + 44, at + 48);
    Joined(s, at, at + 48, at + 52);
    Joined(s, at, at + 52, at + 64);
  }

  /** A descriptor is its seven fields. */
  lemma Seven(s: seq<U8>, d: nat)
    requires d + 48 <= |s|
    ensures s[d..d + 48] == s[d..d + 2] + s[d + 2..d + 4] + s[d + 4..d + 8] + s[d + 8..d + 16] + s[d + 16..d + 24]
      + s[d + 24..d + 40] + s[d + 40..d + 48]
  {
  }

  lemma OneDescriptor(s: seq<U8>, at: nat, n: nat, length: nat, blocks: seq<Block>, digest: seq<U8> -> seq<U8>, k: nat)
    requires at + 64 + 48 * n <= |s| && Tiled(s, at, n, length, blocks) && InFile(s, blocks) && Genuine(s, blocks, digest) && k < n == |blocks|
    ensures s[at + 64 + 48 * k..at + 64 + 48 * k + 48] == Descriptor(PayloadsOf(s, blocks), k, digest)
  {
    hide ToBytes, FromBytes, Tiled, Cursor, Body;
    var d, ps := at + 64 + 48 * k, PayloadsOf(s, blocks);
    BlockGives(s, at, n, length, blocks, k);
    CursorGives(s, at, n, length, blocks, k);
    assert GenuineAt(s, blocks[k], digest);
    FieldBytes(s, d, 2);
    FieldBytes(s, d + 4, 4);
    FieldBytes(s, d + 8, 8);
    FieldBytes(s, d + 16, 8);
    Seven(s, d);
  }

  lemma {:induction false} DescriptorBytes(s: seq<U8>, at: nat, n: nat, length: nat, blocks: seq<Block>, digest: seq<U8> -> seq<U8>, k: nat)
    requires at + 64 + 48 * n <= |s| && Tiled(s, at, n, length, blocks) && InFile(s, blocks) && Genuine(s, blocks, digest) && k <= n == |blocks|
    ensures s[at + 64..at + 64 + 48 * k] == Descriptors(PayloadsOf(s, blocks), k, digest)
  {
    hide Descriptor, Tiled, Genuine, InFile, PayloadsOf;
    if k > 0 {
      DescriptorBytes(s, at, n, length, blocks, digest, k - 1);
      OneDescriptor(s, at, n, length, blocks, digest, k - 1);
      Joined(s, at + 64, at + 64 + 48 * (k - 1), at + 64 + 48 * k);
    }
  }

  lemma Joined(s: seq<U8>, i: nat, j: nat, k: nat)
    requires i <= j <= k <= |s|
    ensures s[i..k] == s[i..j] + s[j..k]
  {
  }

  lemma {:induction false} BodyBytes(s: seq<U8>, at: nat, n: nat, length: nat, blocks: seq<Block>, digest: seq<U8> -> seq<U8>, k: nat)
    requires at + 64 + 48 * n <= |s| && Tiled(s, at, n, length, blocks) && InFile(s, blocks) && k <= n == |blocks|
    ensures var body := Body(PayloadsOf(s, blocks)[..k]);
      at + 64 + 48 * n + |body| <= |s| && s[at + 64 + 48 * n..at + 64 + 48 * n + |body|] == body
  {
    hide Tiled, U16At, U32At, U64At, Zero, Cursor;
    if k > 0 {
      var ps, start := PayloadsOf(s, blocks), at + 64 + 48 * n;
      BodyBytes(s, at, n, length, blocks, digest, k - 1);
      BlockGives(s, at, n, length, blocks, k - 1);
      CursorGives(s, at, n, length, blocks, k - 1);
      assert ps[..k][..k - 1] == ps[..k - 1];
      var end := start + |Body(ps[..k - 1])|;
      assert blocks[k - 1].offset == end;
      Joined(s, start, end, end + blocks[k - 1].length);
    }
  }

  lemma FootBytes(s: seq<U8>, at: nat, digest: seq<U8> -> seq<U8>, ps: seq<Payload>, sequence: U64, counters: seq<U32>)
    requires at + 64 <= |s| && 96 + 48 * CountOf(s, at) <= LengthOf(s, at) && at + LengthOf(s, at) <= |s|
    requires FootOk(s, at, digest) && |counters| == 3 && sequence + 1 < TWO64
    requires CountOf(s, at) == |ps| && LengthOf(s, at) == Length(ps) && SequenceOf(s, at) == sequence + 1
    ensures var end := at + Length(ps);
      s[end - 32..end] == Footer(ps, sequence + 1, s[at..at + 64 + 48 * |ps|], digest)
  {
    hide ToBytes, FromBytes, Length, CountOf;
    var end := at + Length(ps);
    FieldBytes(s, end - 32, 8);
    FieldBytes(s, end - 24, 8);
    Joined(s, end - 32, end - 24, end);
    Joined(s, end - 24, end - 16, end);
  }

  lemma Assemble(s: seq<U8>, at: nat, ps: seq<Payload>, sequence: U64, counters: seq<U32>, digest: seq<U8> -> seq<U8>)
    requires |counters| == 3 && sequence + 1 < TWO64 && at + Length(ps) <= |s|
    requires s[at..at + 64] == Head(ps, sequence + 1, sequence, counters)
    requires s[at + 64..at + 64 + 48 * |ps|] == Descriptors(ps, |ps|, digest)
    requires ps[..|ps|] == ps
    requires s[at + 64 + 48 * |ps|..at + 64 + 48 * |ps| + |Body(ps)|] == Body(ps)
    requires s[at + Length(ps) - 32..at + Length(ps)] == Footer(ps, sequence + 1, s[at..at + 64 + 48 * |ps|], digest)
    ensures s[at..at + Length(ps)] == Frame(ps, sequence + 1, sequence, counters, digest)
  {
    hide Head, Descriptors, Body, Footer;
    var a, b, c := at + 64, at + 64 + 48 * |ps|, at + 64 + 48 * |ps| + |Body(ps)|;
    Joined(s, at, a, b);
    Joined(s, at, b, c);
    Joined(s, at, c, at + Length(ps));
  }

  // ---- the format before ----

  /** A head that says format 5 is accepted wherever one of this format is. */
  lemma LegacyHead(s: seq<U8>, t: seq<U8>, at: nat, room: nat, sequence: U64, before: seq<U32>)
    requires at + room <= |s| && |t| == |s| && |before| == 3 && HeadOk(s, at, room, sequence, before)
    requires t[..at + 8] == s[..at + 8] && t[at + 12..] == s[at + 12..] && U32At(t, at + 8) == 5
    ensures HeadOk(t, at, room, sequence, before)
  {
    hide FromBytes;
    forall i: nat, j: nat | (i <= j <= at + 8) || (at + 12 <= i <= j <= |s|)
      ensures s[i..j] == t[i..j]
    {
      SameOutside(s, t, at, i, j);
    }
    assert s[at..at + 8] == t[at..at + 8] && s[at + 12..at + 16] == t[at + 12..at + 16];
    assert s[at + 16..at + 24] == t[at + 16..at + 24] && s[at + 24..at + 32] == t[at + 24..at + 32];
    assert s[at + 32..at + 40] == t[at + 32..at + 40] && s[at + 40..at + 44] == t[at + 40..at + 44];
    assert s[at + 44..at + 48] == t[at + 44..at + 48] && s[at + 48..at + 52] == t[at + 48..at + 52];
    assert s[at + 52..at + 64] == t[at + 52..at + 64];
  }

  lemma SameOutside(s: seq<U8>, t: seq<U8>, at: nat, i: nat, j: nat)
    requires |t| == |s| && at + 12 <= |s| && t[..at + 8] == s[..at + 8] && t[at + 12..] == s[at + 12..]
    requires (i <= j <= at + 8) || (at + 12 <= i <= j <= |s|)
    ensures s[i..j] == t[i..j]
  {
    if j <= at + 8 {
      assert s[i..j] == s[..at + 8][i..j] && t[i..j] == t[..at + 8][i..j];
    } else {
      var d := at + 12;
      assert s[i..j] == s[d..][i - d..j - d] && t[i..j] == t[d..][i - d..j - d];
    }
  }

  // ---- the log's own header ----

  /** A log goes with one identity and one checkpoint sequence only. */
  lemma OneHeader(s: seq<U8>, m: Manifest, n: Manifest, base: seq<U32>, digest: seq<U8> -> seq<U8>, txs: seq<Envelope>, others: seq<Envelope>)
    requires Accepted(s, m, base, digest, txs) && Accepted(s, n, base, digest, others)
    requires |m.identity.incarnation| == |n.identity.incarnation| == 16
    ensures m.identity == n.identity && m.checkpointSequence == n.checkpointSequence
  {
    hide Framed, U32At, ToBytes, FromBytes, Pow2;
    var version := if U32At(s, 8) == 5 then 5 else VERSION;
    HeaderParts(m, version, digest);
    HeaderParts(n, version, digest);
    Widths();
    FieldBack(m.identity.checkpoint, 8);
    FieldBack(n.identity.checkpoint, 8);
    FieldBack(m.checkpointSequence, 8);
    FieldBack(n.checkpointSequence, 8);
  }

  lemma HeaderParts(m: Manifest, version: nat, digest: seq<U8> -> seq<U8>)
    requires |m.identity.incarnation| == 16
    ensures var h := HeaderBytes(m, version, digest);
      && |h| >= 48 && h[16..32] == m.identity.incarnation
      && h[32..40] == ToBytes(m.identity.checkpoint, 8) && h[40..48] == ToBytes(m.checkpointSequence, 8)
  {
    hide ToBytes;
  }
}
