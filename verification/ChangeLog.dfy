/** The change log's framing: a fixed prefix of a file, tiled by transactions,
    each tiled by its blocks. */
module ChangeLog {
  import opened Bits
  import opened Basics

  const HEADER: nat := 64
  const VERSION: nat := 6
  const NONE: nat := 0xFFFF_FFFF
  const U64_MAX: nat := 0xFFFF_FFFF_FFFF_FFFF

  /** "FERRETCL" and "FERRETTX". */
  const LOG_MAGIC: seq<U8> := [70, 69, 82, 82, 69, 84, 67, 76]
  const TX_MAGIC: seq<U8> := [70, 69, 82, 82, 69, 84, 84, 88]

  datatype Identity = Identity(incarnation: seq<U8>, checkpoint: U64)

  /** What a manifest says of its log. */
  datatype Manifest = Manifest(identity: Identity, logEnd: U64, checkpointSequence: U64, sequence: U64, counters: seq<U32>) {
    ghost predicate Valid() { |identity.incarnation| == 16 && |counters| == 3 }
  }

  datatype Block = Block(family: nat, count: U32, offset: U64, length: U64, digest: seq<U8>)

  datatype Envelope = Envelope(sequence: U64, counters: seq<U32>, blocks: seq<Block>, at: U64, length: U64)

  // ---- fields ----

  function U16At(s: seq<U8>, i: nat): nat
    requires i + 2 <= |s|
  {
    FromBytes(s[i..i + 2])
  }

  function U32At(s: seq<U8>, i: nat): U32
    requires i + 4 <= |s|
  {
    FromBytesBound(s[i..i + 4]);
    Pow2Constants();
    FromBytes(s[i..i + 4])
  }

  function U64At(s: seq<U8>, i: nat): U64
    requires i + 8 <= |s|
  {
    FromBytesBound(s[i..i + 8]);
    Pow2Constants();
    FromBytes(s[i..i + 8])
  }

  predicate Zero(s: seq<U8>, i: nat, n: nat)
    requires i + n <= |s|
  {
    s[i..i + n] == seq(n, _ => 0)
  }

  function HeaderBytes(m: Manifest, version: nat, digest: seq<U8> -> seq<U8>): seq<U8> {
    var front := LOG_MAGIC + ToBytes(version, 4) + [0, 0, 0, 0] + m.identity.incarnation
                 + ToBytes(m.identity.checkpoint, 8) + ToBytes(m.checkpointSequence, 8);
    front + digest(front)
  }

  // ---- one transaction ----

  function CountOf(s: seq<U8>, at: nat): U32 requires at + 64 <= |s| { U32At(s, at + 12) }

  function LengthOf(s: seq<U8>, at: nat): U64 requires at + 64 <= |s| { U64At(s, at + 16) }

  function SequenceOf(s: seq<U8>, at: nat): U64 requires at + 64 <= |s| { U64At(s, at + 24) }

  function CountersOf(s: seq<U8>, at: nat): seq<U32>
    requires at + 64 <= |s|
  {
    [U32At(s, at + 40), U32At(s, at + 44), U32At(s, at + 48)]
  }

  predicate CountersFollow(next: seq<U32>, before: seq<U32>)
    requires |next| == |before| == 3
  {
    next[0] <= NONE - 16 && next[1] != NONE && forall i :: 0 <= i < 3 ==> before[i] <= next[i]
  }

  /** The fixed part of a transaction. */
  predicate HeadOk(s: seq<U8>, at: nat, room: nat, sequence: U64, counters: seq<U32>)
    requires at + room <= |s| && |counters| == 3
  {
    && room >= 96
    && s[at..at + 8] == TX_MAGIC && U32At(s, at + 8) in [5, VERSION] && Zero(s, at + 52, 12)
    && 1 <= CountOf(s, at) <= 4
    && 96 + 48 * CountOf(s, at) <= LengthOf(s, at) <= room && LengthOf(s, at) % 8 == 0
    && SequenceOf(s, at) == sequence + 1 && SequenceOf(s, at) != U64_MAX && U64At(s, at + 32) == sequence
    && CountersFollow(CountersOf(s, at), counters)
  }

  /** The footer repeats the head and covers the framing. */
  predicate FootOk(s: seq<U8>, at: nat, digest: seq<U8> -> seq<U8>)
    requires at + 64 <= |s| && 96 + 48 * CountOf(s, at) <= LengthOf(s, at) && at + LengthOf(s, at) <= |s|
  {
    var end := at + LengthOf(s, at);
    && U64At(s, end - 32) == SequenceOf(s, at) && U64At(s, end - 24) == LengthOf(s, at)
    && s[end - 16..end] == digest(s[at..at + 64 + 48 * CountOf(s, at)])
  }

  // ---- its blocks ----

  function SizeOf(s: seq<U8>, d: nat): U64 requires d + 48 <= |s| { U64At(s, d + 16) }

  /** Where the `k`-th block must begin, from the transaction's start. */
  function Cursor(s: seq<U8>, at: nat, count: nat, k: nat): nat
    requires k <= count && at + 64 + 48 * count <= |s|
  {
    if k == 0 then 64 + 48 * count else Cursor(s, at, count, k - 1) + SizeOf(s, at + 64 + 48 * (k - 1))
  }

  predicate DescriptorOk(s: seq<U8>, at: nat, count: nat, length: nat, k: nat)
    requires k < count && at + 64 + 48 * count <= |s|
  {
    var d, cursor := at + 64 + 48 * k, Cursor(s, at, count, k);
    && U16At(s, d) < 4 && (forall j: nat :: j < k ==> U16At(s, at + 64 + 48 * j) != U16At(s, d))
    && Zero(s, d + 2, 2) && Zero(s, d + 40, 8)
    && U64At(s, d + 8) == cursor
    && SizeOf(s, d) != 0 && SizeOf(s, d) % 8 == 0
    && U32At(s, d + 4) != 0 && U32At(s, d + 4) <= SizeOf(s, d) / 16
    && SizeOf(s, d) + cursor + 32 <= length
  }

  function BlockAt(s: seq<U8>, at: nat, k: nat): Block
    requires at + 64 + 48 * (k + 1) <= |s| && at + U64At(s, at + 64 + 48 * k + 8) < TWO64
  {
    var d := at + 64 + 48 * k;
    Block(U16At(s, d), U32At(s, d + 4), at + U64At(s, d + 8), SizeOf(s, d), s[d + 24..d + 40])
  }

  /** The first blocks are placed where their descriptors say, end to end. */
  ghost predicate Placed(s: seq<U8>, at: nat, count: nat, length: nat, blocks: seq<Block>)
    requires at + 64 + 48 * count <= |s|
  {
    && |blocks| <= count
    && forall k: nat :: k < |blocks| ==> PlacedAt(s, at, count, length, blocks, k)
  }

  ghost predicate PlacedAt(s: seq<U8>, at: nat, count: nat, length: nat, blocks: seq<Block>, k: nat)
    requires at + 64 + 48 * count <= |s| && k < |blocks| <= count
  {
    && DescriptorOk(s, at, count, length, k)
    && at + U64At(s, at + 64 + 48 * k + 8) < TWO64 && blocks[k] == BlockAt(s, at, k)
  }

  /** The blocks tile the body. */
  ghost predicate Tiled(s: seq<U8>, at: nat, count: nat, length: nat, blocks: seq<Block>)
    requires at + 64 + 48 * count <= |s|
  {
    |blocks| == count && Placed(s, at, count, length, blocks) && Cursor(s, at, count, count) + 32 == length
  }

  /** Reads the descriptors, checking each against those before it; no sum or
      difference on the way leaves its width. */
  method ReadBlocks(s: seq<U8>, at: U64, count: nat, length: U64) returns (r: Option<seq<Block>>)
    requires 96 + 48 * count <= length && at + length <= |s| < TWO64
    ensures r.Some? ==> Tiled(s, at, count, length, r.value)
    ensures r.None? ==> forall blocks :: !Tiled(s, at, count, length, blocks)
  {
    hide *;
    var cursor: U64 := 64 + count * 48;
    var seen: set<nat> := {};
    var blocks: seq<Block> := [];
    PlacedNone(s, at, count, length);
    for k := 0 to count
      invariant |blocks| == k && Placed(s, at, count, length, blocks)
      invariant cursor == Cursor(s, at, count, k) && cursor + 32 <= length
      invariant forall f :: f in seen <==> SeenBefore(s, at, count, k, f)
    {
      var d: U64 := at + 64 + k * 48;
      var family, size, records := U16At(s, d), U64At(s, d + 16), U32At(s, d + 4);
      var left: U64 := length - 32 - cursor;
      DescriptorIs(s, at, count, length, k, seen);
      if family >= 4 || family in seen || !Zero(s, d + 2, 2) || !Zero(s, d + 40, 8) || U64At(s, d + 8) != cursor
        || size == 0 || size % 8 != 0 || records == 0 || records > size / 16 || size > left
      {
        NotPlaced(s, at, count, length, k);
        return None;
      }
      PlacedStep(s, at, count, length, blocks);
      SeenNext(s, at, count, k);
      seen := seen + {family};
      blocks := blocks + [Block(family, records, at + U64At(s, d + 8), size, s[d + 24..d + 40])];
      cursor := cursor + size;
    }
    TiledIs(s, at, count, length, blocks);
    if cursor != length - 32 {
      return None;
    }
    return Some(blocks);
  }

  predicate SeenBefore(s: seq<U8>, at: nat, count: nat, k: nat, f: nat)
    requires k <= count && at + 64 + 48 * count <= |s|
  {
    exists j: nat :: j < k && U16At(s, at + 64 + 48 * j) == f
  }

  lemma PlacedNone(s: seq<U8>, at: nat, count: nat, length: nat)
    requires at + 64 + 48 * count <= |s|
    ensures Placed(s, at, count, length, []) && Cursor(s, at, count, 0) == 64 + 48 * count
    ensures forall f: nat :: !SeenBefore(s, at, count, 0, f)
  {
  }

  lemma SeenNext(s: seq<U8>, at: nat, count: nat, k: nat)
    requires k < count && at + 64 + 48 * count <= |s|
    ensures forall f: nat :: SeenBefore(s, at, count, k + 1, f) <==> SeenBefore(s, at, count, k, f) || f == U16At(s, at + 64 + 48 * k)
  {
    hide U16At;
    forall f: nat
      ensures SeenBefore(s, at, count, k + 1, f) <==> SeenBefore(s, at, count, k, f) || f == U16At(s, at + 64 + 48 * k)
    {
      if SeenBefore(s, at, count, k, f) {
        var j: nat :| j < k && U16At(s, at + 64 + 48 * j) == f;
        assert j < k + 1;
      }
    }
  }

  /** The loop's test is the descriptor's condition. */
  lemma DescriptorIs(s: seq<U8>, at: nat, count: nat, length: nat, k: nat, seen: set<nat>)
    requires k < count && at + 64 + 48 * count <= |s|
    requires forall f :: f in seen <==> SeenBefore(s, at, count, k, f)
    ensures var d, cursor := at + 64 + 48 * k, Cursor(s, at, count, k);
      DescriptorOk(s, at, count, length, k) <==>
        && U16At(s, d) < 4 && U16At(s, d) !in seen && Zero(s, d + 2, 2) && Zero(s, d + 40, 8) && U64At(s, d + 8) == cursor
        && U64At(s, d + 16) != 0 && U64At(s, d + 16) % 8 == 0 && U32At(s, d + 4) != 0 && U32At(s, d + 4) <= U64At(s, d + 16) / 16
        && U64At(s, d + 16) + cursor + 32 <= length
  {
    hide U16At, U32At, U64At, Cursor, Zero;
    var f := U16At(s, at + 64 + 48 * k);
    assert SeenBefore(s, at, count, k, f) <==> f in seen;
  }

  lemma NotPlaced(s: seq<U8>, at: nat, count: nat, length: nat, k: nat)
    requires k < count && at + 64 + 48 * count <= |s| && !DescriptorOk(s, at, count, length, k)
    ensures forall blocks :: !Tiled(s, at, count, length, blocks)
  {
    hide DescriptorOk, Placed, Cursor;
    forall blocks
      ensures !Tiled(s, at, count, length, blocks)
    {
      if |blocks| == count && Placed(s, at, count, length, blocks) {
        PlacedHas(s, at, count, length, blocks, k);
      }
    }
  }

  lemma PlacedHas(s: seq<U8>, at: nat, count: nat, length: nat, blocks: seq<Block>, k: nat)
    requires k < |blocks| && at + 64 + 48 * count <= |s| && Placed(s, at, count, length, blocks)
    ensures DescriptorOk(s, at, count, length, k)
  {
    hide DescriptorOk, BlockAt;
    assert PlacedAt(s, at, count, length, blocks, k);
  }

  lemma PlacedStep(s: seq<U8>, at: nat, count: nat, length: nat, blocks: seq<Block>)
    requires |blocks| < count && at + 64 + 48 * count <= |s| && at + length < TWO64
    requires Placed(s, at, count, length, blocks) && DescriptorOk(s, at, count, length, |blocks|)
    ensures var d := at + 64 + 48 * |blocks|;
      && at + U64At(s, d + 8) < TWO64
      && Placed(s, at, count, length, blocks + [Block(U16At(s, d), U32At(s, d + 4), at + U64At(s, d + 8), U64At(s, d + 16), s[d + 24..d + 40])])
    ensures Cursor(s, at, count, |blocks| + 1) == Cursor(s, at, count, |blocks|) + U64At(s, at + 64 + 48 * |blocks| + 16)
    ensures Cursor(s, at, count, |blocks| + 1) + 32 <= length
  {
    hide U16At, U32At, U64At;
    var d, n := at + 64 + 48 * |blocks|, |blocks|;
    var after := blocks + [Block(U16At(s, d), U32At(s, d + 4), at + U64At(s, d + 8), U64At(s, d + 16), s[d + 24..d + 40])];
    forall k: nat | k < |after|
      ensures PlacedAt(s, at, count, length, after, k)
    {
      assert k < n ==> PlacedAt(s, at, count, length, blocks, k);
    }
  }

  /** Blocks that are placed are determined. */
  lemma TiledIs(s: seq<U8>, at: nat, count: nat, length: nat, blocks: seq<Block>)
    requires at + 64 + 48 * count <= |s| && |blocks| == count && Placed(s, at, count, length, blocks)
    ensures Tiled(s, at, count, length, blocks) <==> Cursor(s, at, count, count) + 32 == length
    ensures Cursor(s, at, count, count) + 32 != length ==> forall other :: !Tiled(s, at, count, length, other)
  {
    hide Placed, Cursor;
  }

  lemma TiledUnique(s: seq<U8>, at: nat, count: nat, length: nat, a: seq<Block>, b: seq<Block>)
    requires at + 64 + 48 * count <= |s| && Tiled(s, at, count, length, a) && Tiled(s, at, count, length, b)
    ensures a == b
  {
    hide DescriptorOk, BlockAt, Cursor;
    forall k: nat | k < count
      ensures a[k] == b[k]
    {
      assert PlacedAt(s, at, count, length, a, k) && PlacedAt(s, at, count, length, b, k);
    }
  }

  // ---- a transaction read ----

  /** This is the transaction that stands at `at`. */
  ghost predicate IsTransaction(s: seq<U8>, at: nat, room: nat, sequence: U64, counters: seq<U32>, digest: seq<U8> -> seq<U8>, e: Envelope)
    requires at + room <= |s| && |counters| == 3
  {
    && HeadOk(s, at, room, sequence, counters) && FootOk(s, at, digest)
    && e.at == at && e.length == LengthOf(s, at) && e.sequence == SequenceOf(s, at) && e.counters == CountersOf(s, at)
    && Tiled(s, at, CountOf(s, at), LengthOf(s, at), e.blocks)
  }

  ghost predicate NoTransaction(s: seq<U8>, at: nat, room: nat, sequence: U64, counters: seq<U32>, digest: seq<U8> -> seq<U8>)
    requires at + room <= |s| && |counters| == 3
  {
    forall e :: !IsTransaction(s, at, room, sequence, counters, digest, e)
  }

  /** Reads the transaction at `at`, or finds that there is none. */
  method ReadEnvelope(s: seq<U8>, at: U64, room: U64, sequence: U64, counters: seq<U32>, digest: seq<U8> -> seq<U8>)
    returns (r: Option<Envelope>)
    requires at + room <= |s| < TWO64 && |counters| == 3
    ensures r.Some? ==> IsTransaction(s, at, room, sequence, counters, digest, r.value)
    ensures r.None? ==> NoTransaction(s, at, room, sequence, counters, digest)
  {
    hide U32At, U64At, Tiled, Zero;
    if room < 96 {
      return None;
    }
    if s[at..at + 8] != TX_MAGIC || U32At(s, at + 8) !in [5, VERSION] || !Zero(s, at + 52, 12) {
      return None;
    }
    var count, length, next := CountOf(s, at), LengthOf(s, at), SequenceOf(s, at);
    if count == 0 || count > 4 || length < 96 + 48 * count || length % 8 != 0 || length > room
      || sequence + 1 >= TWO64 || sequence + 1 != next || next == U64_MAX || U64At(s, at + 32) != sequence
    {
      return None;
    }
    if !CountersFollow(CountersOf(s, at), counters) {
      return None;
    }
    if !FootOk(s, at, digest) {
      return None;
    }
    var blocks := ReadBlocks(s, at, count, length);
    if blocks.None? {
      return None;
    }
    return Some(Envelope(next, CountersOf(s, at), blocks.value, at, length));
  }

  lemma TransactionUnique(s: seq<U8>, at: nat, room: nat, sequence: U64, counters: seq<U32>, digest: seq<U8> -> seq<U8>, a: Envelope, b: Envelope)
    requires at + room <= |s| && |counters| == 3
    requires IsTransaction(s, at, room, sequence, counters, digest, a) && IsTransaction(s, at, room, sequence, counters, digest, b)
    ensures a == b
  {
    hide HeadOk, FootOk, Tiled;
    HeadFits(s, at, room, sequence, counters);
    TiledUnique(s, at, CountOf(s, at), LengthOf(s, at), a.blocks, b.blocks);
  }

  lemma HeadFits(s: seq<U8>, at: nat, room: nat, sequence: U64, counters: seq<U32>)
    requires at + room <= |s| && |counters| == 3 && HeadOk(s, at, room, sequence, counters)
    ensures at + 96 + 48 * CountOf(s, at) <= at + LengthOf(s, at) <= at + room
  {
  }

  // ---- the log ----

  /** Where the log goes on after its first transactions, and with what. */
  function EndOf(txs: seq<Envelope>): nat {
    if txs == [] then HEADER else txs[|txs| - 1].at + txs[|txs| - 1].length
  }

  function SequenceAfter(m: Manifest, txs: seq<Envelope>): U64 {
    if txs == [] then m.checkpointSequence else txs[|txs| - 1].sequence
  }

  function CountersAfter(base: seq<U32>, txs: seq<Envelope>): seq<U32> {
    if txs == [] then base else txs[|txs| - 1].counters
  }

  /** Each transaction stands where the one before it ends. */
  ghost predicate Framed(s: seq<U8>, m: Manifest, base: seq<U32>, digest: seq<U8> -> seq<U8>, txs: seq<Envelope>) {
    forall i: nat :: i < |txs| ==> FramedAt(s, m, base, digest, txs, i)
  }

  ghost predicate FramedAt(s: seq<U8>, m: Manifest, base: seq<U32>, digest: seq<U8> -> seq<U8>, txs: seq<Envelope>, i: nat)
    requires i < |txs|
  {
    var front := txs[..i];
    && EndOf(front) < m.logEnd <= |s| && |CountersAfter(base, front)| == 3
    && IsTransaction(s, EndOf(front), m.logEnd - EndOf(front), SequenceAfter(m, front), CountersAfter(base, front), digest, txs[i])
  }

  ghost predicate Accepted(s: seq<U8>, m: Manifest, base: seq<U32>, digest: seq<U8> -> seq<U8>, txs: seq<Envelope>) {
    && HEADER <= m.logEnd <= |s|
    && s[..64] == HeaderBytes(m, if U32At(s, 8) == 5 then 5 else VERSION, digest)
    && Framed(s, m, base, digest, txs)
    && EndOf(txs) == m.logEnd && SequenceAfter(m, txs) == m.sequence && CountersAfter(base, txs) == m.counters
  }

  /** Opens a log's committed prefix: exactly the transactions that tile it, or
      nothing if none do. */
  method Open(s: seq<U8>, m: Manifest, base: seq<U32>, digest: seq<U8> -> seq<U8>) returns (r: Option<seq<Envelope>>)
    requires m.Valid() && |base| == 3 && |s| < TWO64
    ensures r.Some? ==> Accepted(s, m, base, digest, r.value)
    ensures r.None? ==> forall txs :: !Accepted(s, m, base, digest, txs)
  {
    hide IsTransaction, U32At, HeaderBytes, Framed, FramedAt;
    if m.logEnd < HEADER || |s| < m.logEnd {
      return None;
    }
    if s[..64] != HeaderBytes(m, if U32At(s, 8) == 5 then 5 else VERSION, digest) {
      return None;
    }
    var at: U64, sequence: U64, counters: seq<U32> := HEADER, m.checkpointSequence, base;
    var txs: seq<Envelope> := [];
    FramedNone(s, m, base, digest);
    while at < m.logEnd
      invariant Framed(s, m, base, digest, txs) && at == EndOf(txs) <= m.logEnd
      invariant sequence == SequenceAfter(m, txs) && counters == CountersAfter(base, txs) && |counters| == 3
      decreases m.logEnd - at
    {
      var e := ReadEnvelope(s, at, m.logEnd - at, sequence, counters, digest);
      if e.None? {
        forall q
          ensures !Accepted(s, m, base, digest, q)
        {
          Missing(s, m, base, digest, txs, q);
        }
        return None;
      }
      FramedPush(s, m, base, digest, txs, e.value);
      txs := txs + [e.value];
      at, sequence, counters := at + e.value.length, e.value.sequence, e.value.counters;
    }
    if sequence != m.sequence || counters != m.counters {
      forall q
        ensures !Accepted(s, m, base, digest, q)
      {
        OnlyOne(s, m, base, digest, txs, q);
      }
      return None;
    }
    return Some(txs);
  }

  lemma FramedNone(s: seq<U8>, m: Manifest, base: seq<U32>, digest: seq<U8> -> seq<U8>)
    ensures Framed(s, m, base, digest, [])
  {
  }

  lemma FramedPush(s: seq<U8>, m: Manifest, base: seq<U32>, digest: seq<U8> -> seq<U8>, txs: seq<Envelope>, e: Envelope)
    requires Framed(s, m, base, digest, txs) && EndOf(txs) < m.logEnd <= |s| && |CountersAfter(base, txs)| == 3
    requires IsTransaction(s, EndOf(txs), m.logEnd - EndOf(txs), SequenceAfter(m, txs), CountersAfter(base, txs), digest, e)
    ensures Framed(s, m, base, digest, txs + [e]) && e.at == EndOf(txs) && |e.counters| == 3
    ensures EndOf(txs) + 96 <= EndOf(txs + [e]) <= m.logEnd
  {
    hide FootOk, Tiled, U32At, U64At;
    var after := txs + [e];
    forall i: nat | i < |after|
      ensures FramedAt(s, m, base, digest, after, i)
    {
      if i < |txs| {
        assert FramedAt(s, m, base, digest, txs, i);
        assert after[..i] == txs[..i];
      } else {
        assert after[..i] == txs;
      }
    }
  }

  /** Two framings of one file agree as far as both go. */
  lemma {:induction false} SameFraming(s: seq<U8>, m: Manifest, base: seq<U32>, digest: seq<U8> -> seq<U8>, a: seq<Envelope>, b: seq<Envelope>, i: nat)
    requires Framed(s, m, base, digest, a) && Framed(s, m, base, digest, b) && i <= |a| && i <= |b|
    ensures a[..i] == b[..i]
  {
    hide IsTransaction;
    if i > 0 {
      SameFraming(s, m, base, digest, a, b, i - 1);
      assert FramedAt(s, m, base, digest, a, i - 1) && FramedAt(s, m, base, digest, b, i - 1);
      var front := a[..i - 1];
      TransactionUnique(s, EndOf(front), m.logEnd - EndOf(front), SequenceAfter(m, front), CountersAfter(base, front), digest, a[i - 1], b[i - 1]);
      assert a[..i] == front + [a[i - 1]] && b[..i] == b[..i - 1] + [b[i - 1]];
    }
  }

  lemma FramedIs(s: seq<U8>, m: Manifest, base: seq<U32>, digest: seq<U8> -> seq<U8>, txs: seq<Envelope>, i: nat)
    requires Framed(s, m, base, digest, txs) && i < |txs|
    ensures FramedAt(s, m, base, digest, txs, i) && EndOf(txs[..i]) < m.logEnd
  {
    hide IsTransaction;
    assert FramedAt(s, m, base, digest, txs, i);
  }

  /** Where nothing can be read, no longer framing goes on. */
  lemma CutShort(s: seq<U8>, m: Manifest, base: seq<U32>, digest: seq<U8> -> seq<U8>, txs: seq<Envelope>, q: seq<Envelope>)
    requires EndOf(txs) < m.logEnd <= |s| && |CountersAfter(base, txs)| == 3
    requires NoTransaction(s, EndOf(txs), m.logEnd - EndOf(txs), SequenceAfter(m, txs), CountersAfter(base, txs), digest)
    requires |q| > |txs| && q[..|txs|] == txs
    ensures !FramedAt(s, m, base, digest, q, |txs|)
  {
    hide IsTransaction;
  }

  /** A framing that stops short of the end, with no transaction next, leaves
      none that reaches it. */
  lemma Missing(s: seq<U8>, m: Manifest, base: seq<U32>, digest: seq<U8> -> seq<U8>, txs: seq<Envelope>, q: seq<Envelope>)
    requires Framed(s, m, base, digest, txs) && EndOf(txs) < m.logEnd <= |s| && |CountersAfter(base, txs)| == 3
    requires NoTransaction(s, EndOf(txs), m.logEnd - EndOf(txs), SequenceAfter(m, txs), CountersAfter(base, txs), digest)
    ensures !Accepted(s, m, base, digest, q)
  {
    hide Framed, FramedAt, HeaderBytes, NoTransaction;
    assert txs[..|txs|] == txs && q[..|q|] == q;
    if Framed(s, m, base, digest, q) {
      var n := if |q| < |txs| then |q| else |txs|;
      SameFraming(s, m, base, digest, q, txs, n);
      if |q| > |txs| {
        CutShort(s, m, base, digest, txs, q);
        FramedIs(s, m, base, digest, q, |txs|);
      } else if |q| < |txs| {
        FramedIs(s, m, base, digest, txs, |q|);
      }
    }
  }

  /** A framing that reaches the end is all there is. */
  lemma OnlyOne(s: seq<U8>, m: Manifest, base: seq<U32>, digest: seq<U8> -> seq<U8>, txs: seq<Envelope>, q: seq<Envelope>)
    requires Framed(s, m, base, digest, txs) && EndOf(txs) == m.logEnd
    ensures Accepted(s, m, base, digest, q) ==> q == txs
  {
    hide Framed, FramedAt, HeaderBytes;
    assert txs[..|txs|] == txs && q[..|q|] == q;
    if Framed(s, m, base, digest, q) && EndOf(q) == m.logEnd {
      var n := if |q| < |txs| then |q| else |txs|;
      SameFraming(s, m, base, digest, q, txs, n);
      if n < |txs| {
        FramedIs(s, m, base, digest, txs, n);
      } else if n < |q| {
        FramedIs(s, m, base, digest, q, n);
      }
    }
  }

  // ---- what accepted logs are ----

  /** Sequences go up by one from the checkpoint's, counters never fall, and
      positions only rise. */
  lemma {:induction false} Steps(s: seq<U8>, m: Manifest, base: seq<U32>, digest: seq<U8> -> seq<U8>, txs: seq<Envelope>, n: nat)
    requires Framed(s, m, base, digest, txs) && n <= |txs| && |base| == 3
    ensures SequenceAfter(m, txs[..n]) == m.checkpointSequence + n
    ensures |CountersAfter(base, txs[..n])| == 3
    ensures n > 0 ==> |CountersAfter(base, txs[..n - 1])| == 3
    ensures n > 0 ==> CountersFollow(CountersAfter(base, txs[..n]), CountersAfter(base, txs[..n - 1]))
    ensures n > 0 ==> EndOf(txs[..n - 1]) == txs[n - 1].at && txs[n - 1].at + 96 < EndOf(txs[..n]) <= m.logEnd
  {
    hide Framed, FootOk, Tiled, U32At, U64At, Zero;
    if n > 0 {
      Steps(s, m, base, digest, txs, n - 1);
      FramedIs(s, m, base, digest, txs, n - 1);
      assert txs[..n] == txs[..n - 1] + [txs[n - 1]];
    }
  }

  lemma {:induction false} CountersNeverFall(s: seq<U8>, m: Manifest, base: seq<U32>, digest: seq<U8> -> seq<U8>, txs: seq<Envelope>, i: nat, j: nat, c: nat)
    requires Framed(s, m, base, digest, txs) && i <= j <= |txs| && |base| == 3 && c < 3
    ensures |CountersAfter(base, txs[..i])| == 3 == |CountersAfter(base, txs[..j])|
    ensures CountersAfter(base, txs[..i])[c] <= CountersAfter(base, txs[..j])[c]
  {
    hide Framed;
    Steps(s, m, base, digest, txs, i);
    Steps(s, m, base, digest, txs, j);
    if i < j {
      CountersNeverFall(s, m, base, digest, txs, i, j - 1, c);
    }
  }

  /** The transactions an accepted log has are as many as its sequences, and
      every byte after the header is in exactly one. */
  lemma AcceptedTiles(s: seq<U8>, m: Manifest, base: seq<U32>, digest: seq<U8> -> seq<U8>, txs: seq<Envelope>, x: nat) returns (i: nat)
    requires Accepted(s, m, base, digest, txs) && |base| == 3 && HEADER <= x < m.logEnd
    ensures m.sequence == m.checkpointSequence + |txs|
    ensures i < |txs| && Holds(txs, i, x) && forall j: nat :: j < |txs| && Holds(txs, j, x) ==> j == i
  {
    hide Framed;
    assert txs[..|txs|] == txs;
    Steps(s, m, base, digest, txs, |txs|);
    i := ByteAt(s, m, base, digest, txs, |txs|, x);
    forall j: nat | j < |txs| && Holds(txs, j, x)
      ensures j == i
    {
      if j < i {
        Later(s, m, base, digest, txs, j, i);
      } else if i < j {
        Later(s, m, base, digest, txs, i, j);
      }
    }
  }

  predicate Holds(txs: seq<Envelope>, i: nat, x: nat)
    requires i < |txs|
  {
    txs[i].at <= x < txs[i].at + txs[i].length
  }

  lemma {:induction false} ByteAt(s: seq<U8>, m: Manifest, base: seq<U32>, digest: seq<U8> -> seq<U8>, txs: seq<Envelope>, n: nat, x: nat) returns (i: nat)
    requires Framed(s, m, base, digest, txs) && n <= |txs| && |base| == 3 && HEADER <= x < EndOf(txs[..n])
    ensures i < n && Holds(txs, i, x)
  {
    hide Framed;
    Steps(s, m, base, digest, txs, n);
    if x < EndOf(txs[..n - 1]) {
      i := ByteAt(s, m, base, digest, txs, n - 1, x);
    } else {
      i := n - 1;
    }
  }

  lemma {:induction false} Later(s: seq<U8>, m: Manifest, base: seq<U32>, digest: seq<U8> -> seq<U8>, txs: seq<Envelope>, i: nat, j: nat)
    requires Framed(s, m, base, digest, txs) && i < j < |txs| && |base| == 3
    ensures txs[i].at + txs[i].length <= txs[j].at
  {
    hide Framed;
    Steps(s, m, base, digest, txs, j);
    Steps(s, m, base, digest, txs, j + 1);
    if i + 1 < j {
      Later(s, m, base, digest, txs, i, j - 1);
    }
  }

  /** A transaction's blocks lie end to end from its descriptors to its footer,
      each family at most once. */
  lemma BlocksTile(s: seq<U8>, at: nat, room: nat, sequence: U64, counters: seq<U32>, digest: seq<U8> -> seq<U8>, e: Envelope, i: nat)
    requires at + room <= |s| && |counters| == 3 && IsTransaction(s, at, room, sequence, counters, digest, e) && i < |e.blocks|
    ensures e.blocks[i].offset == if i == 0 then e.at + 64 + 48 * |e.blocks| else e.blocks[i - 1].offset + e.blocks[i - 1].length
    ensures i + 1 == |e.blocks| ==> e.blocks[i].offset + e.blocks[i].length == e.at + e.length - 32
    ensures e.blocks[i].family < 4 && forall j: nat :: j < i ==> e.blocks[j].family != e.blocks[i].family
    ensures 0 < e.blocks[i].count && 16 * e.blocks[i].count <= e.blocks[i].length
  {
    hide FootOk, Zero, U16At, U32At, U64At;
    var count := CountOf(s, at);
    HeadFits(s, at, room, sequence, counters);
    assert PlacedAt(s, at, count, LengthOf(s, at), e.blocks, i);
    if i > 0 {
      assert PlacedAt(s, at, count, LengthOf(s, at), e.blocks, i - 1);
    }
    forall j: nat | j < i
      ensures e.blocks[j].family != e.blocks[i].family
    {
      assert PlacedAt(s, at, count, LengthOf(s, at), e.blocks, j);
    }
  }

  // ---- only the prefix matters ----

  ghost predicate SamePrefix(s: seq<U8>, t: seq<U8>, end: nat) {
    end <= |s| && end <= |t| && s[..end] == t[..end]
  }

  lemma SameSlice(s: seq<U8>, t: seq<U8>, end: nat, i: nat, j: nat)
    requires SamePrefix(s, t, end) && i <= j <= end
    ensures s[i..j] == t[i..j]
  {
    assert s[i..j] == s[..end][i..j] && t[i..j] == t[..end][i..j];
  }

  lemma SameHead(s: seq<U8>, t: seq<U8>, end: nat, at: nat)
    requires SamePrefix(s, t, end) && at + 64 <= end
    ensures CountOf(s, at) == CountOf(t, at) && LengthOf(s, at) == LengthOf(t, at) && SequenceOf(s, at) == SequenceOf(t, at)
    ensures CountersOf(s, at) == CountersOf(t, at) && s[at..at + 8] == t[at..at + 8]
    ensures U32At(s, at + 8) == U32At(t, at + 8) && U64At(s, at + 32) == U64At(t, at + 32) && Zero(s, at + 52, 12) == Zero(t, at + 52, 12)
  {
    hide FromBytes;
    forall i: nat, j: nat | at <= i <= j <= at + 64
      ensures s[i..j] == t[i..j]
    {
      SameSlice(s, t, end, i, j);
    }
  }

  lemma SameDescriptor(s: seq<U8>, t: seq<U8>, end: nat, d: nat)
    requires SamePrefix(s, t, end) && d + 48 <= end
    ensures U16At(s, d) == U16At(t, d) && U32At(s, d + 4) == U32At(t, d + 4) && U64At(s, d + 8) == U64At(t, d + 8)
    ensures SizeOf(s, d) == SizeOf(t, d) && s[d + 24..d + 40] == t[d + 24..d + 40]
    ensures Zero(s, d + 2, 2) == Zero(t, d + 2, 2) && Zero(s, d + 40, 8) == Zero(t, d + 40, 8)
  {
    hide FromBytes;
    forall i: nat, j: nat | d <= i <= j <= d + 48
      ensures s[i..j] == t[i..j]
    {
      SameSlice(s, t, end, i, j);
    }
  }

  lemma {:induction false} SameCursor(s: seq<U8>, t: seq<U8>, end: nat, at: nat, count: nat, k: nat)
    requires SamePrefix(s, t, end) && at + 64 + 48 * count <= end && k <= count
    ensures Cursor(s, at, count, k) == Cursor(t, at, count, k)
  {
    hide U64At, SamePrefix;
    Within(s, t, end);
    if k > 0 {
      SameCursor(s, t, end, at, count, k - 1);
      SameDescriptor(s, t, end, at + 64 + 48 * (k - 1));
    }
  }

  lemma Within(s: seq<U8>, t: seq<U8>, end: nat)
    requires SamePrefix(s, t, end)
    ensures end <= |s| && end <= |t|
  {
  }

  lemma SameTiled(s: seq<U8>, t: seq<U8>, end: nat, at: nat, count: nat, length: nat, blocks: seq<Block>)
    requires SamePrefix(s, t, end) && at + 64 + 48 * count <= end && Tiled(s, at, count, length, blocks)
    ensures at + 64 + 48 * count <= |t| && Tiled(t, at, count, length, blocks)
  {
    hide U16At, U32At, U64At, Zero, Cursor, SamePrefix;
    Within(s, t, end);
    SameCursor(s, t, end, at, count, count);
    forall k: nat | k < count
      ensures PlacedAt(t, at, count, length, blocks, k)
    {
      assert PlacedAt(s, at, count, length, blocks, k);
      SameCursor(s, t, end, at, count, k);
      SameDescriptor(s, t, end, at + 64 + 48 * k);
      forall j: nat | j < k
        ensures U16At(t, at + 64 + 48 * j) == U16At(s, at + 64 + 48 * j)
      {
        SameDescriptor(s, t, end, at + 64 + 48 * j);
      }
    }
  }

  lemma SameTransaction(s: seq<U8>, t: seq<U8>, at: nat, room: nat, sequence: U64, counters: seq<U32>, digest: seq<U8> -> seq<U8>, e: Envelope)
    requires SamePrefix(s, t, at + room) && |counters| == 3 && IsTransaction(s, at, room, sequence, counters, digest, e)
    ensures at + room <= |t| && IsTransaction(t, at, room, sequence, counters, digest, e)
  {
    hide U16At, U32At, U64At, Zero, Tiled, SamePrefix;
    var end := at + room;
    Within(s, t, end);
    HeadFits(s, at, room, sequence, counters);
    SameHead(s, t, end, at);
    SameTiled(s, t, end, at, CountOf(s, at), LengthOf(s, at), e.blocks);
    SameFoot(s, t, end, at, digest);
  }

  lemma SameFoot(s: seq<U8>, t: seq<U8>, end: nat, at: nat, digest: seq<U8> -> seq<U8>)
    requires SamePrefix(s, t, end) && at + 64 <= end && CountOf(s, at) == CountOf(t, at) && LengthOf(s, at) == LengthOf(t, at)
    requires SequenceOf(s, at) == SequenceOf(t, at)
    requires 96 + 48 * CountOf(s, at) <= LengthOf(s, at) && at + LengthOf(s, at) <= end
    ensures FootOk(s, at, digest) <==> FootOk(t, at, digest)
  {
    hide FromBytes, CountOf, LengthOf, SequenceOf;
    var stop := at + LengthOf(s, at);
    SameSlice(s, t, end, stop - 32, stop - 24);
    SameSlice(s, t, end, stop - 24, stop - 16);
    SameSlice(s, t, end, stop - 16, stop);
    SameSlice(s, t, end, at, at + 64 + 48 * CountOf(s, at));
  }

  /** Cutting off or changing what comes after the committed end changes nothing. */
  lemma PrefixDecides(s: seq<U8>, t: seq<U8>, m: Manifest, base: seq<U32>, digest: seq<U8> -> seq<U8>, txs: seq<Envelope>)
    requires SamePrefix(s, t, m.logEnd)
    ensures Accepted(s, m, base, digest, txs) <==> Accepted(t, m, base, digest, txs)
  {
    hide Accepted;
    if Accepted(s, m, base, digest, txs) {
      PrefixCarries(s, t, m, base, digest, txs);
    }
    if Accepted(t, m, base, digest, txs) {
      PrefixCarries(t, s, m, base, digest, txs);
    }
  }

  lemma PrefixCarries(s: seq<U8>, t: seq<U8>, m: Manifest, base: seq<U32>, digest: seq<U8> -> seq<U8>, txs: seq<Envelope>)
    requires SamePrefix(s, t, m.logEnd) && Accepted(s, m, base, digest, txs)
    ensures Accepted(t, m, base, digest, txs)
  {
    hide IsTransaction, HeaderBytes, SamePrefix, U64At, FromBytes;
    Within(s, t, m.logEnd);
    SameSlice(s, t, m.logEnd, 0, 64);
    SameSlice(s, t, m.logEnd, 8, 12);
    forall i: nat | i < |txs|
      ensures FramedAt(t, m, base, digest, txs, i)
    {
      assert FramedAt(s, m, base, digest, txs, i);
      var front := txs[..i];
      SameTransaction(s, t, EndOf(front), m.logEnd - EndOf(front), SequenceAfter(m, front), CountersAfter(base, front), digest, txs[i]);
    }
  }

  /** Recovery's cut: a torn suffix past the committed end is dropped, and what
      opens afterwards is what opened before. */
  method Recover(s: seq<U8>, m: Manifest, base: seq<U32>, digest: seq<U8> -> seq<U8>) returns (cut: seq<U8>)
    requires m.Valid() && HEADER <= m.logEnd <= |s|
    ensures |cut| == m.logEnd && forall txs :: Accepted(s, m, base, digest, txs) <==> Accepted(cut, m, base, digest, txs)
  {
    hide Accepted;
    cut := if |s| > m.logEnd then s[..m.logEnd] else s;
    forall txs
      ensures Accepted(s, m, base, digest, txs) <==> Accepted(cut, m, base, digest, txs)
    {
      PrefixDecides(s, cut, m, base, digest, txs);
    }
  }
}
