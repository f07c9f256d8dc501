/** The binary fuse filter's geometry and hashing, and the theory of peeling:
    what each slot's counters hold for a list of hashes, what an order of
    removal must satisfy, and when one exists at all. */
module Fuse {
  import opened Bits

  /** Seeds tried per shape, segments construction may add, header bytes. */
  const ATTEMPTS: nat := 100
  const GROWTH: nat := 8
  const HEADER: nat := 13

  /** The geometry of one filter. Slots are split into `segments + 2` segments
      of `2^log2` slots each. */
  datatype Shape = Shape(log2: nat, segments: nat) {
    predicate Valid() {
      log2 < 32 && 1 <= segments < TWO32
    }

    function SegmentLength(): nat {
      Pow2(log2)
    }

    function ArrayLength(): nat {
      (segments + 2) * SegmentLength()
    }

    /** A hash's slots, by position. */
    function Slots(hash: U64): (slots: seq<nat>)
      ensures |slots| == 3
    {
      var length := SegmentLength();
      var span := segments * length;
      var h0 := Shr(hash * span, 64);
      var h1 := Xor(h0 + length, Low(Shr(hash, 18), log2));
      var h2 := Xor(h0 + 2 * length, Low(hash, log2));
      [h0, h1, h2]
    }

    /** Which of the hash's positions is `slot`, or 3 for none. */
    function PositionOf(hash: U64, slot: nat): (p: nat)
      ensures p <= 3
      ensures p < 3 ==> Slots(hash)[p] == slot
    {
      var s := Slots(hash);
      if s[0] == slot then 0 else if s[1] == slot then 1 else if s[2] == slot then 2 else 3
    }

    predicate Touches(hash: U64, slot: nat) {
      PositionOf(hash, slot) < 3
    }
  }

  // ---- hashing ----

  function WrappingMul(a: U64, b: U64): U64 {
    (a * b) % TWO64
  }

  function XorShift(h: U64, n: nat): U64 {
    ShrLe(h, n);
    Xor64(h, Shr(h, n))
  }

  /** A key under a seed: two rounds of shift, exclusive or and multiply. */
  function Mix(key: U64, seed: U64): U64 {
    var h := (key + seed) % TWO64;
    var h := WrappingMul(XorShift(h, 33), 0xff51_afd7_ed55_8ccd);
    var h := WrappingMul(XorShift(h, 33), 0xc4ce_b9fe_1a85_ec53);
    XorShift(h, 33)
  }

  function Fingerprint(hash: U64): U8 {
    Xor(hash, Shr(hash, 32)) % 256
  }

  /** splitmix64's step, the seed state's next value, and the seed drawn from it. */
  const GAMMA: nat := 0x9e37_79b9_7f4a_7c15

  function NextState(state: U64): U64 {
    (state + GAMMA) % TWO64
  }

  function SeedOf(state: U64): U64 {
    var z := WrappingMul(XorShift(state, 30), 0xbf58_476d_1ce4_e5b9);
    var z := WrappingMul(XorShift(z, 27), 0x94d0_49bb_1331_11eb);
    XorShift(z, 31)
  }

  /** The state after `n` draws. */
  function StateAfter(state: U64, n: nat): U64 {
    if n == 0 then state else NextState(StateAfter(state, n - 1))
  }

  function HashAll(keys: seq<U64>, seed: U64): (hs: seq<U64>)
    ensures |hs| == |keys|
    ensures forall i :: 0 <= i < |keys| ==> hs[i] == Mix(keys[i], seed)
  {
    seq(|keys|, i requires 0 <= i < |keys| => Mix(keys[i], seed))
  }

  // ---- undoing the hash ----

  /** Undoes the exclusive or of a word with itself shifted by a third or more. */
  function Unshift(y: U64, n: nat): U64 {
    ShrLe(y, n);
    ShrLe(y, 2 * n);
    Xor64(Xor64(y, Shr(y, n)), Shr(y, 2 * n))
  }

  lemma UnshiftBack(h: U64, n: nat)
    requires 22 <= n <= 64
    ensures Unshift(XorShift(h, n), n) == h
  {
    hide Xor, Shr, Low;
    var s, t := Shr(h, n), Shr(h, 2 * n);
    XorSplit(h, s, n);
    XorSplit(h, s, 2 * n);
    ShrAdd(h, n, n);
    ShrAdd(h, n, 2 * n);
    ShrWide(h, 3 * n);
    XorZero(t);
    Telescope(h, s, t);
  }

  lemma Telescope(h: nat, s: nat, t: nat)
    ensures Xor(Xor(Xor(h, s), Xor(s, t)), t) == h
  {
    hide Xor;
    XorAssoc(h, s, Xor(s, t));
    XorAssoc(s, s, t);
    XorSelf(s);
    XorZero(t);
    XorAssoc(h, t, t);
    XorSelf(t);
    XorZero(h);
  }

  /** The key that has a hash under a seed. */
  function Unmix(hash: U64, seed: U64): U64 {
    var h := WrappingMul(Unshift(hash, 33), 0x9cb4_b2f8_1293_37db);
    var h := WrappingMul(Unshift(h, 33), 0x4f74_430c_22a5_4005);
    (Unshift(h, 33) + TWO64 - seed) % TWO64
  }

  /** The state a seed was drawn from. */
  function Unseed(seed: U64): U64 {
    var z := WrappingMul(Unshift(seed, 31), 0x3196_42b2_d24d_8ec3);
    var z := WrappingMul(Unshift(z, 27), 0x96de_1b17_3f11_9089);
    Unshift(z, 30)
  }

  lemma ShrWide(h: U64, n: nat)
    requires 64 <= n
    ensures Shr(h, n) == 0
  {
    Pow2Constants();
    LowSmall(h, 64);
    ShrAdd(h, 64, n - 64);
    ShrZero(n - 64);
  }
  lemma {:induction false} ShrZero(n: nat)
    ensures Shr(0, n) == 0
  {
    if n > 0 {
      ShrZero(n - 1);
    }
  }

  /** Multiplying by an odd constant loses nothing. */
  lemma MulInverse(a: U64, c: U64, inverse: U64, k: nat)
    requires c * inverse == k * TWO64 + 1
    ensures WrappingMul(WrappingMul(a, c), inverse) == a
  {
    var q, r := (a * c) / TWO64, (a * c) % TWO64;
    assert a * c == q * TWO64 + r;
    calc {
      r * inverse;
      (a * c - q * TWO64) * inverse;
      a * c * inverse - q * TWO64 * inverse;
      a * (c * inverse) - (q * inverse) * TWO64;
      a * (k * TWO64 + 1) - (q * inverse) * TWO64;
      (a * k - q * inverse) * TWO64 + a;
    }
    ModUnique(r * inverse, a * k - q * inverse, a);
  }
  lemma ModUnique(x: int, q: int, r: nat)
    requires x == q * TWO64 + r && r < TWO64
    ensures x % TWO64 == r
  {
  }

  /** Every key comes back from its hash. */
  lemma MixBack(key: U64, seed: U64)
    ensures Unmix(Mix(key, seed), seed) == key
  {
    hide XorShift, WrappingMul, Unshift;
    var h0 := (key + seed) % TWO64;
    var x := XorShift(h0, 33);
    var h1 := WrappingMul(x, 0xff51_afd7_ed55_8ccd);
    var y := XorShift(h1, 33);
    var h2 := WrappingMul(y, 0xc4ce_b9fe_1a85_ec53);
    UnshiftBack(h2, 33);
    MulInverse(y, 0xc4ce_b9fe_1a85_ec53, 0x9cb4_b2f8_1293_37db, 8680939279959119233);
    UnshiftBack(h1, 33);
    MulInverse(x, 0xff51_afd7_ed55_8ccd, 0x4f74_430c_22a5_4005, 5710046619856821070);
    UnshiftBack(h0, 33);
  }

  /** Distinct keys have distinct hashes under every seed. */
  lemma MixInjective(a: U64, b: U64, seed: U64)
    requires Mix(a, seed) == Mix(b, seed)
    ensures a == b
  {
    hide Mix, Unmix;
    MixBack(a, seed);
    MixBack(b, seed);
  }

  /** Every state comes back from the seed drawn from it. */
  lemma SeedBack(state: U64)
    ensures Unseed(SeedOf(state)) == state
  {
    hide XorShift, WrappingMul, Unshift;
    var x := XorShift(state, 30);
    var z1 := WrappingMul(x, 0xbf58_476d_1ce4_e5b9);
    var y := XorShift(z1, 27);
    var z2 := WrappingMul(y, 0x94d0_49bb_1331_11eb);
    UnshiftBack(z2, 31);
    MulInverse(y, 0x94d0_49bb_1331_11eb, 0x3196_42b2_d24d_8ec3, 2077064247507883091);
    UnshiftBack(z1, 27);
    MulInverse(x, 0xbf58_476d_1ce4_e5b9, 0x96de_1b17_3f11_9089, 8125545580553827436);
    UnshiftBack(state, 30);
  }

  /** Each of the attempts draws a seed of its own. */
  lemma SeedsDistinct(state: U64, t: nat, u: nat)
    requires t < u < TWO64
    ensures SeedOf(StateAfter(state, t)) != SeedOf(StateAfter(state, u))
  {
    hide SeedOf, StateAfter;
    StateIs(state, t);
    StateIs(state, u);
    if SeedOf(StateAfter(state, t)) == SeedOf(StateAfter(state, u)) {
      SeedBack(StateAfter(state, t));
      SeedBack(StateAfter(state, u));
      StepsApart(state, t, u);
    }
  }

  /** Draws move the state by equal steps. */
  lemma {:induction false} StateIs(state: U64, n: nat)
    ensures StateAfter(state, n) == (state + n * GAMMA) % TWO64
  {
    if n > 0 {
      StateIs(state, n - 1);
      AddMod(state + (n - 1) * GAMMA, GAMMA);
    }
  }

  lemma AddMod(x: nat, y: nat)
    ensures (x % TWO64 + y) % TWO64 == (x + y) % TWO64
  {
  }

  lemma StepsApart(state: U64, t: nat, u: nat)
    requires t < u < TWO64
    ensures (state + t * GAMMA) % TWO64 != (state + u * GAMMA) % TWO64
  {
    var d: U64 := u - t;
    if (state + t * GAMMA) % TWO64 == (state + u * GAMMA) % TWO64 {
      assert (state + u * GAMMA) - (state + t * GAMMA) == d * GAMMA;
      SameRest(state + t * GAMMA, state + u * GAMMA);
      MulInverse(d, GAMMA, 0xf1de_83e1_9937_733d, 10771413168148108919);
    }
  }

  lemma SameRest(x: nat, y: nat)
    requires x <= y && x % TWO64 == y % TWO64
    ensures (y - x) % TWO64 == 0
  {
  }

  /** A fingerprint's bits say where the low bytes of the hash's two halves differ. */
  lemma FingerprintBits(hash: U64, j: nat)
    requires j < 8
    ensures Bit(Fingerprint(hash), j) <==> Bit(hash, j) != Bit(hash, 32 + j)
  {
    hide Xor, Shr, Low, Bit;
    Pow2Constants();
    ShrIsDiv(Xor(hash, Shr(hash, 32)), 8);
    LowBit(Xor(hash, Shr(hash, 32)), 8, j);
    XorBit(hash, Shr(hash, 32), j);
    ShrBit(hash, 32, j);
  }

  // ---- geometry ----

  lemma MulShrBound(hash: U64, span: nat)
    requires span > 0
    ensures Shr(hash * span, 64) < span
  {
    var q := Shr(hash * span, 64);
    ShrLow(hash * span, 64);
    Pow2Constants();
    if q >= span {
      MulMono(span, q, TWO64);
      assert hash * span >= span * TWO64;
      MulMono(hash + 1, TWO64, span);
      assert false;
    }
  }

  /** Adding whole segments and flipping bits inside a segment moves a slot by
      exactly that many segments. */
  lemma SegmentOf(h: nat, k: nat, flip: nat, n: nat)
    requires flip < Pow2(n)
    ensures Shr(Xor(h + k * Pow2(n), flip), n) == Shr(h, n) + k
  {
    ShrLow(h, n);
    assert (Shr(h, n) + k) * Pow2(n) == Shr(h, n) * Pow2(n) + k * Pow2(n);
    ShrLowUnique(h + k * Pow2(n), n, Shr(h, n) + k, Low(h, n));
    XorSplit(h + k * Pow2(n), flip, n);
    LowSmall(flip, n);
    XorZero(Shr(h, n) + k);
  }

  lemma RowBound(row: nat, column: nat, width: nat, rows: nat)
    requires row < rows && column < width
    ensures row * width + column < rows * width
  {
    MulMono(row + 1, rows, width);
  }

  lemma SegmentBound(x: nat, n: nat, segments: nat)
    requires Shr(x, n) < segments
    ensures x < segments * Pow2(n)
  {
    ShrLow(x, n);
    RowBound(Shr(x, n), Low(x, n), Pow2(n), segments);
  }

  /** The three slots lie in three consecutive segments, inside the array. */
  lemma SlotsGeometry(sh: Shape, hash: U64)
    requires sh.Valid()
    ensures forall p :: 0 <= p < 3 ==> Shr(sh.Slots(hash)[p], sh.log2) == Shr(sh.Slots(hash)[0], sh.log2) + p
    ensures forall p :: 0 <= p < 3 ==> sh.Slots(hash)[p] < sh.ArrayLength()
  {
    hide Shr, Low, Xor, Pow2;
    var n, s := sh.log2, sh.Slots(hash);
    FirstSegment(sh, hash);
    ShrLow(hash, n);
    ShrLow(Shr(hash, 18), n);
    SegmentOf(s[0], 1, Low(Shr(hash, 18), n), n);
    SegmentOf(s[0], 2, Low(hash, n), n);
    SegmentBound(s[0], n, sh.segments + 2);
    SegmentBound(s[1], n, sh.segments + 2);
    SegmentBound(s[2], n, sh.segments + 2);
  }

  /** The first slot is in one of the first segments. */
  lemma FirstSegment(sh: Shape, hash: U64)
    requires sh.Valid()
    ensures Shr(sh.Slots(hash)[0], sh.log2) < sh.segments
  {
    hide Shr, Low, Xor, Pow2;
    var n, length, slot := sh.log2, sh.SegmentLength(), sh.Slots(hash)[0];
    MulMono(1, sh.segments, length);
    MulShrBound(hash, sh.segments * length);
    ShrLow(slot, n);
    if Shr(slot, n) >= sh.segments {
      MulMono(sh.segments, Shr(slot, n), length);
    }
  }

  /** Distinct positions are distinct slots, so each position is found again. */
  lemma SlotsDistinct(sh: Shape, hash: U64)
    requires sh.Valid()
    ensures forall p: nat, q: nat :: p < q < 3 ==> sh.Slots(hash)[p] != sh.Slots(hash)[q]
    ensures forall p: nat :: p < 3 ==> sh.PositionOf(hash, sh.Slots(hash)[p]) == p
    ensures forall slot: nat :: sh.Touches(hash, slot) ==> slot < sh.ArrayLength()
  {
    SlotsGeometry(sh, hash);
    var s := sh.Slots(hash);
    assert Shr(s[1], sh.log2) == Shr(s[0], sh.log2) + 1;
    assert Shr(s[2], sh.log2) == Shr(s[0], sh.log2) + 2;
  }

  /** The first slot is the hash scaled down to the first segments. */
  lemma FirstSlot(sh: Shape, hash: U64)
    requires sh.Valid()
    ensures var first, span := sh.Slots(hash)[0], sh.segments * Pow2(sh.log2);
      first * TWO64 <= hash * span < (first + 1) * TWO64
  {
    hide Shr, Low, Pow2;
    var x := hash * (sh.segments * Pow2(sh.log2));
    ShrLow(x, 64);
    Pow2Constants();
  }

  /** Inside their segments the other two slots differ from the first by the
      hash's bits from 18 on, and by its lowest bits. */
  lemma SlotBits(sh: Shape, hash: U64, j: nat)
    requires sh.Valid() && j < sh.log2
    ensures var s := sh.Slots(hash);
      && (Bit(s[1], j) <==> Bit(s[0], j) != Bit(hash, 18 + j))
      && (Bit(s[2], j) <==> Bit(s[0], j) != Bit(hash, j))
  {
    hide Shr, Low, Xor, Pow2, Bit;
    var n, first := sh.log2, sh.Slots(hash)[0];
    FlipBits(first, 1, Shr(hash, 18), n, j);
    FlipBits(first, 2, hash, n, j);
    ShrBit(hash, 18, j);
  }

  lemma FlipBits(h: nat, k: nat, x: nat, n: nat, j: nat)
    requires j < n
    ensures Bit(Xor(h + k * Pow2(n), Low(x, n)), j) <==> Bit(h, j) != Bit(x, j)
  {
    hide Shr, Low, Xor, Pow2, Bit;
    XorBit(h + k * Pow2(n), Low(x, n), j);
    LowBit(x, n, j);
    LowBit(h, n, j);
    LowBit(h + k * Pow2(n), n, j);
    ShrLow(h, n);
    assert (Shr(h, n) + k) * Pow2(n) == Shr(h, n) * Pow2(n) + k * Pow2(n);
    ShrLowUnique(h + k * Pow2(n), n, Shr(h, n) + k, Low(h, n));
  }

  /** Of hashes with one first slot, the lowest bits tell the third slots apart,
      and the bits from 18 on the second. */
  lemma SlotsTell(sh: Shape, a: U64, b: U64)
    requires sh.Valid() && sh.Slots(a)[0] == sh.Slots(b)[0]
    ensures sh.Slots(a)[1] == sh.Slots(b)[1] <==> a / Pow2(18) % Pow2(sh.log2) == b / Pow2(18) % Pow2(sh.log2)
    ensures sh.Slots(a)[2] == sh.Slots(b)[2] <==> a % Pow2(sh.log2) == b % Pow2(sh.log2)
  {
    hide Shr, Low, Xor, Pow2;
    var n, first := sh.log2, sh.Slots(a)[0];
    ShrIsDiv(a, 18);
    ShrIsDiv(b, 18);
    ShrIsDiv(a, n);
    ShrIsDiv(b, n);
    ShrIsDiv(Shr(a, 18), n);
    ShrIsDiv(Shr(b, 18), n);
    Flips(first + sh.SegmentLength(), Low(Shr(a, 18), n), Low(Shr(b, 18), n));
    Flips(first + 2 * sh.SegmentLength(), Low(a, n), Low(b, n));
  }

  lemma Flips(c: nat, a: nat, b: nat)
    ensures Xor(c, a) == Xor(c, b) <==> a == b
  {
    if Xor(c, a) == Xor(c, b) {
      XorCancel(c, a, b);
    }
  }

  // ---- what a slot's counters hold ----

  /** Of the hashes that touch a slot: how many, the exclusive or of the slot's
      position in each, and the exclusive or of the hashes themselves. */
  datatype Tally = Tally(num: nat, tag: nat, mix: U64)

  const EMPTY := Tally(0, 0, 0)

  function AddTo(t: Tally, hash: U64, position: nat): Tally {
    Tally(t.num + 1, Xor(t.tag, position), Xor64(t.mix, hash))
  }

  function Count(sh: Shape, t: Tally, hash: U64, slot: nat): Tally {
    if sh.Touches(hash, slot) then AddTo(t, hash, sh.PositionOf(hash, slot)) else t
  }

  function TallyOf(sh: Shape, hs: seq<U64>, slot: nat): Tally {
    if hs == [] then EMPTY
    else Count(sh, TallyOf(sh, hs[..|hs| - 1], slot), hs[|hs| - 1], slot)
  }

  lemma CountComm(sh: Shape, t: Tally, h: U64, l: U64, slot: nat)
    ensures Count(sh, Count(sh, t, h, slot), l, slot) == Count(sh, Count(sh, t, l, slot), h, slot)
  {
    var p, q := sh.PositionOf(h, slot), sh.PositionOf(l, slot);
    XorSwap(t.tag, p, q);
    XorSwap(t.mix, h, l);
  }

  lemma XorSwap(a: nat, b: nat, c: nat)
    ensures Xor(Xor(a, b), c) == Xor(Xor(a, c), b)
  {
    XorAssoc(a, b, c);
    XorAssoc(a, c, b);
    XorComm(b, c);
  }

  function Without(hs: seq<U64>, i: nat): (r: seq<U64>)
    requires i < |hs|
    ensures |r| == |hs| - 1
  {
    hs[..i] + hs[i + 1..]
  }

  /** A tally does not depend on the order of the hashes: any of them can be
      counted last. */
  lemma {:induction false} TallyWithout(sh: Shape, hs: seq<U64>, i: nat, slot: nat)
    requires i < |hs|
    ensures TallyOf(sh, hs, slot) == Count(sh, TallyOf(sh, Without(hs, i), slot), hs[i], slot)
    decreases |hs|
  {
    hide Count;
    var n := |hs| - 1;
    if i < n {
      var front := hs[..n];
      TallyWithout(sh, front, i, slot);
      var w := Without(hs, i);
      assert w[..n - 1] == Without(front, i);
      assert w[n - 1] == hs[n];
      CountComm(sh, TallyOf(sh, Without(front, i), slot), hs[i], hs[n], slot);
    } else {
      assert Without(hs, i) == hs[..n];
    }
  }

  lemma {:induction false} TallyTagBound(sh: Shape, hs: seq<U64>, slot: nat)
    ensures TallyOf(sh, hs, slot).tag < 4
  {
    if hs != [] {
      var front := hs[..|hs| - 1];
      TallyTagBound(sh, front, slot);
      assert Pow2(2) == 4;
      var p := sh.PositionOf(hs[|hs| - 1], slot);
      XorBound(TallyOf(sh, front, slot).tag, p, 2);
    }
  }

  /** A zero count means no hash touches the slot, and nothing is left in it. */
  lemma {:induction false} TallyZero(sh: Shape, hs: seq<U64>, slot: nat)
    ensures TallyOf(sh, hs, slot).num == 0 <==> forall i :: 0 <= i < |hs| ==> !sh.Touches(hs[i], slot)
    ensures TallyOf(sh, hs, slot).num == 0 ==> TallyOf(sh, hs, slot) == EMPTY
  {
    if hs != [] {
      var n := |hs| - 1;
      TallyZero(sh, hs[..n], slot);
      assert forall i :: 0 <= i < n ==> hs[..n][i] == hs[i];
      assert hs[n] == hs[|hs| - 1];
    }
  }

  /** A count of one identifies the hash and the position exactly. */
  lemma {:induction false} TallyOne(sh: Shape, hs: seq<U64>, slot: nat) returns (i: nat)
    requires TallyOf(sh, hs, slot).num == 1
    ensures i < |hs| && sh.Touches(hs[i], slot)
    ensures TallyOf(sh, hs, slot) == Tally(1, sh.PositionOf(hs[i], slot), hs[i])
    ensures forall j :: 0 <= j < |hs| && j != i ==> !sh.Touches(hs[j], slot)
  {
    var n := |hs| - 1;
    if sh.Touches(hs[n], slot) {
      i := n;
      TallyZero(sh, hs[..n], slot);
      assert forall j :: 0 <= j < n ==> hs[..n][j] == hs[j];
      XorZero(sh.PositionOf(hs[n], slot));
      XorZero(hs[n]);
    } else {
      i := TallyOne(sh, hs[..n], slot);
      assert forall j :: 0 <= j < n ==> hs[..n][j] == hs[j];
    }
  }

  // ---- the packed counter byte ----

  /** The byte a slot keeps: the count in the high six bits, wrapping, and the
      position tag in the low two. */
  function Encoded(t: Tally): U8
    requires t.tag < 4
  {
    4 * (t.num % 64) + t.tag
  }

  function Up(c: U8, position: nat): U8
    requires position < 3
  {
    Xor8((c + 4) % 256, position)
  }

  function Down(c: U8, position: nat): U8
    requires position < 3
  {
    Xor8((c + 252) % 256, position)
  }

  lemma XorLowBits(c: nat, p: nat)
    requires p < 4
    ensures Xor(c, p) == 4 * (c / 4) + Xor(c % 4, p) && Xor(c % 4, p) < 4
  {
    assert Pow2(2) == 4;
    ShrLowUnique(c, 2, c / 4, c % 4);
    LowSmall(p, 2);
    XorSplit(c, p, 2);
    XorZero(c / 4);
    ShrLow(Xor(c, p), 2);
  }

  lemma UpExact(t: Tally, hash: U64, position: nat)
    requires t.tag < 4 && position < 3
    ensures AddTo(t, hash, position).tag < 4
    ensures Up(Encoded(t), position) == Encoded(AddTo(t, hash, position))
  {
    hide Xor;
    var c := (Encoded(t) + 4) % 256;
    XorLowBits(c, position);
    NextCount(t.num, t.tag);
    XorLowBits(t.tag, position);
  }

  lemma NextCount(num: nat, tag: nat)
    requires tag < 4
    ensures (4 * (num % 64) + tag + 4) % 256 / 4 == (num + 1) % 64
    ensures (4 * (num % 64) + tag + 4) % 256 % 4 == tag
    ensures (4 * ((num + 1) % 64) + tag + 252) % 256 / 4 == num % 64
    ensures (4 * ((num + 1) % 64) + tag + 252) % 256 % 4 == tag
  {
    var c := num % 64;
    assert (num + 1) % 64 == (c + 1) % 64;
    assert (num + 1) % 64 == if c == 63 then 0 else c + 1;
    Quarter(4 * c + tag + 4, if c == 63 then 0 else c + 1, tag);
    Quarter(4 * (if c == 63 then 0 else c + 1) + tag + 252, c, tag);
  }

  lemma Quarter(x: nat, c: nat, tag: nat)
    requires tag < 4 && c < 64 && (x == 4 * c + tag || x == 4 * c + tag + 256)
    ensures x % 256 / 4 == c && x % 256 % 4 == tag
  {
    assert x % 256 == 4 * c + tag;
  }

  lemma DownExact(t: Tally, hash: U64, position: nat)
    requires t.tag < 4 && position < 3 && AddTo(t, hash, position).tag < 4
    ensures Down(Encoded(AddTo(t, hash, position)), position) == Encoded(t)
  {
    hide Xor;
    var tag := Xor(t.tag, position);
    var c := (4 * ((t.num + 1) % 64) + tag + 252) % 256;
    assert c == (Encoded(AddTo(t, hash, position)) + 252) % 256;
    NextCount(t.num, tag);
    XorLowBits(c, position);
    XorAssoc(t.tag, position, position);
    XorSelf(position);
    XorZero(t.tag);
  }

  // ---- peel orders ----

  /** One removal: a hash, and the position of the slot that held it alone. */
  datatype Peeled = Peeled(hash: U64, found: nat)

  function OwnSlot(sh: Shape, e: Peeled): nat
    requires e.found < 3
  {
    sh.Slots(e.hash)[e.found]
  }

  function HashesOf(order: seq<Peeled>): (hs: seq<U64>)
    ensures |hs| == |order|
    ensures forall i :: 0 <= i < |order| ==> hs[i] == order[i].hash
  {
    seq(|order|, i requires 0 <= i < |order| => order[i].hash)
  }

  predicate InRange(order: seq<Peeled>) {
    forall i :: 0 <= i < |order| ==> order[i].found < 3
  }

  /** No hash peeled later touches the slot an earlier one owned. */
  ghost predicate Triangular(sh: Shape, order: seq<Peeled>)
    requires InRange(order)
  {
    forall i, j :: 0 <= i < j < |order| ==> !sh.Touches(order[j].hash, OwnSlot(sh, order[i]))
  }

  ghost predicate IsPeelOrder(sh: Shape, order: seq<Peeled>, hs: seq<U64>) {
    && InRange(order)
    && Triangular(sh, order)
    && multiset(HashesOf(order)) == multiset(hs)
  }

  /** What construction needs of a seed: six-bit counters hold every slot's
      count, and some order removes every hash. */
  ghost predicate Peels(sh: Shape, hs: seq<U64>) {
    && (forall slot: nat :: TallyOf(sh, hs, slot).num < 64)
    && exists order :: IsPeelOrder(sh, order, hs)
  }

  /** Peeling cannot go on: hashes remain and no slot holds exactly one. */
  ghost predicate Stuck(sh: Shape, rest: seq<U64>) {
    rest != [] && forall slot: nat :: TallyOf(sh, rest, slot).num != 1
  }

  lemma MultisetSplit(s: seq<U64>, i: nat)
    requires i < |s|
    ensures multiset(s) == multiset(s[..i]) + multiset{s[i]} + multiset(s[i + 1..])
    ensures multiset(s) == multiset(Without(s, i)) + multiset{s[i]}
  {
    assert s == s[..i] + [s[i]] + s[i + 1..];
  }

  lemma TwiceIn(s: seq<U64>, i: nat, j: nat)
    requires i < j < |s| && s[i] == s[j]
    ensures multiset(s)[s[i]] >= 2
  {
    MultisetSplit(s, i);
    assert s[i + 1..][j - i - 1] == s[j];
    assert s[j] in multiset(s[i + 1..]);
  }

  lemma OnceIn(s: seq<U64>, i: nat)
    requires i < |s| && forall j :: 0 <= j < |s| && j != i ==> s[j] != s[i]
    ensures multiset(s)[s[i]] == 1
  {
    MultisetSplit(s, i);
    assert s[i] !in s[..i] && s[i] !in s[i + 1..];
  }

  lemma {:induction false} TwoPlaces(s: seq<U64>, h: U64) returns (i: nat, j: nat)
    requires multiset(s)[h] >= 2
    ensures i < j < |s| && s[i] == h && s[j] == h
  {
    var n := |s| - 1;
    assert s == s[..n] + [s[n]];
    if s[n] == h {
      assert multiset(s[..n])[h] >= 1;
      assert h in s[..n];
      i :| 0 <= i < n && s[i] == h;
      j := n;
    } else {
      i, j := TwoPlaces(s[..n], h);
    }
  }

  lemma {:induction false} TallyTwo(sh: Shape, hs: seq<U64>, slot: nat) returns (i: nat, j: nat)
    requires TallyOf(sh, hs, slot).num >= 2
    ensures i < j < |hs| && sh.Touches(hs[i], slot) && sh.Touches(hs[j], slot)
  {
    var n := |hs| - 1;
    if sh.Touches(hs[n], slot) {
      TallyZero(sh, hs[..n], slot);
      i :| 0 <= i < n && sh.Touches(hs[..n][i], slot);
      j := n;
    } else {
      i, j := TallyTwo(sh, hs[..n], slot);
    }
  }

  /** A peel order never holds a hash twice. */
  lemma PeelOrderDistinct(sh: Shape, order: seq<Peeled>, hs: seq<U64>, a: nat, b: nat)
    requires sh.Valid() && IsPeelOrder(sh, order, hs) && a < b < |hs|
    ensures hs[a] != hs[b]
  {
    if hs[a] == hs[b] {
      TwiceIn(hs, a, b);
      var i, j := TwoPlaces(HashesOf(order), hs[a]);
      SlotsDistinct(sh, order[i].hash);
      assert sh.Touches(order[j].hash, OwnSlot(sh, order[i]));
    }
  }

  /** A stuck remainder rules out every peel order of the whole list: peeling
      greedily never goes wrong. */
  lemma StuckHasNoOrder(sh: Shape, order: seq<Peeled>, hs: seq<U64>, rest: seq<U64>)
    requires sh.Valid() && Stuck(sh, rest) && multiset(rest) <= multiset(hs)
    ensures !IsPeelOrder(sh, order, hs)
  {
    if IsPeelOrder(sh, order, hs) {
      var all := HashesOf(order);
      assert rest[0] in multiset(rest);
      assert rest[0] in all;
      var k :| 0 <= k < |all| && all[k] == rest[0];
      var i := FirstIn(all, rest, k);
      var slot := OwnSlot(sh, order[i]);
      SlotsDistinct(sh, all[i]);
      var r :| 0 <= r < |rest| && rest[r] == all[i];
      TallyZero(sh, rest, slot);
      var a, b := TallyTwo(sh, rest, slot);
      OnlyOwner(sh, order, hs, rest, i, a);
      OnlyOwner(sh, order, hs, rest, i, b);
      TwiceIn(rest, a, b);
      OnceIn(all, i);
    }
  }

  lemma FirstIn(all: seq<U64>, rest: seq<U64>, k: nat) returns (i: nat)
    requires k < |all| && all[k] in rest
    ensures i < |all| && all[i] in rest && forall j :: 0 <= j < i ==> all[j] !in rest
  {
    i := 0;
    while all[i] !in rest
      decreases k - i
      invariant i <= k && forall j :: 0 <= j < i ==> all[j] !in rest
    {
      i := i + 1;
    }
  }

  lemma OnlyOwner(sh: Shape, order: seq<Peeled>, hs: seq<U64>, rest: seq<U64>, i: nat, a: nat)
    requires sh.Valid() && IsPeelOrder(sh, order, hs) && multiset(rest) <= multiset(hs)
    requires i < |order| && order[i].hash in rest
    requires forall j :: 0 <= j < i ==> order[j].hash !in rest
    requires a < |rest| && sh.Touches(rest[a], OwnSlot(sh, order[i]))
    ensures rest[a] == order[i].hash
    ensures forall j :: 0 <= j < |order| && j != i ==> order[j].hash != order[i].hash
  {
    var all := HashesOf(order);
    assert rest[a] in multiset(rest);
    assert rest[a] in all;
    var j :| 0 <= j < |all| && all[j] == rest[a];
    SlotsDistinct(sh, order[i].hash);
  }
}
