/** Construction of a binary fuse filter: count, peel, back-substitute, over
    arrays updated in place, for up to `ATTEMPTS` seeds at each shape. */
module FuseBuild {
  import opened Bits
  import opened Fuse
  import opened Basics

  /** One document's filter. */
  datatype Filter = Filter(seed: U64, shape: Shape, fingerprints: seq<U8>, grown: nat) {
    /** Maybe (true) or No for `key`. */
    predicate Contains(key: U64)
      requires shape.Valid()
      requires fingerprints != [] ==> |fingerprints| == shape.ArrayLength()
    {
      fingerprints != [] && Holds(shape, fingerprints, Mix(key, seed))
    }
  }

  /** The fingerprint of `hash` is the exclusive or of its three slots. */
  predicate Holds(sh: Shape, fp: seq<U8>, hash: U64)
    requires sh.Valid() && |fp| == sh.ArrayLength()
  {
    SlotsGeometry(sh, hash);
    var s := sh.Slots(hash);
    Xor8(Xor8(Xor8(Fingerprint(hash), fp[s[0]]), fp[s[1]]), fp[s[2]]) == 0
  }

  /** A filter tells hashes apart: of the 256 values a hash's slot could have,
      given the rest, it holds the hash under exactly one. */
  lemma OneByteHolds(sh: Shape, fp: seq<U8>, hash: U64, p: nat) returns (v: U8)
    requires sh.Valid() && |fp| == sh.ArrayLength() && p < 3
    ensures forall w: U8 :: HoldsWith(sh, fp, hash, p, w) <==> w == v
  {
    hide Xor8, Shape.Slots, Fingerprint, Shape.ArrayLength;
    SlotsGeometry(sh, hash);
    SlotsDistinct(sh, hash);
    var s := sh.Slots(hash);
    var q, r := (p + 1) % 3, (p + 2) % 3;
    v := Xor8(Xor8(Fingerprint(hash), fp[s[q]]), fp[s[r]]);
    forall w: U8
      ensures HoldsWith(sh, fp, hash, p, w) <==> w == v
    {
      var f := fp[s[p] := w];
      assert f[s[p]] == w && f[s[q]] == fp[s[q]] && f[s[r]] == fp[s[r]];
      ZeroOnlyIf(Fingerprint(hash), fp[s[q]], fp[s[r]], w);
    }
  }

  /** Whether the hash would be held with `w` in its slot of position `p`. */
  predicate HoldsWith(sh: Shape, fp: seq<U8>, hash: U64, p: nat, w: U8)
    requires sh.Valid() && |fp| == sh.ArrayLength() && p < 3
  {
    SlotsGeometry(sh, hash);
    Holds(sh, fp[sh.Slots(hash)[p] := w], hash)
  }

  /** Four bytes cancel, in whatever order, exactly if each is what the rest come to. */
  lemma ZeroOnlyIf(a: U8, b: U8, c: U8, w: U8)
    ensures Xor8(Xor8(Xor8(a, b), c), w) == 0 <==> w == Xor8(Xor8(a, b), c)
    ensures Xor8(Xor8(Xor8(a, w), b), c) == Xor8(Xor8(Xor8(a, b), c), w)
    ensures Xor8(Xor8(Xor8(a, c), w), b) == Xor8(Xor8(Xor8(a, b), c), w)
  {
    hide Xor;
    XorSwap(a, w, b);
    XorSwap(Xor(a, b), w, c);
    XorSwap(Xor(a, c), w, b);
    XorSwap(a, c, b);
    var x := Xor(Xor(a, b), c);
    XorSelf(x);
    if Xor(x, w) == 0 {
      XorCancel(x, w, x);
    }
  }

  // ---- counting ----

  /** Every slot's byte and word are exact for `hs`, up to the six-bit wrap. */
  ghost predicate Counted(sh: Shape, count: seq<U8>, mix: seq<U64>, hs: seq<U64>) {
    && |count| == |mix| == sh.ArrayLength()
    && forall s: nat :: s < |count| ==> SlotExact(sh, count[s], mix[s], hs, s)
  }

  ghost predicate SlotExact(sh: Shape, c: U8, m: U64, hs: seq<U64>, s: nat) {
    var t := TallyOf(sh, hs, s);
    t.tag < 4 && c == Encoded(t) && m == t.mix
  }

  /** Some slot holds more hashes than six bits count. */
  ghost predicate Full(sh: Shape, hs: seq<U64>) {
    exists s: nat :: Heavy(sh, hs, s)
  }

  ghost predicate Heavy(sh: Shape, hs: seq<U64>, s: nat) {
    TallyOf(sh, hs, s).num >= 64
  }

  method AddHash(sh: Shape, hash: U64, count: array<U8>, mix: array<U64>) returns (overflow: bool)
    requires sh.Valid() && count.Length == mix.Length == sh.ArrayLength()
    requires count as object != mix as object
    modifies count, mix
    ensures forall s: nat :: s < count.Length ==>
      var p := sh.PositionOf(hash, s);
      && count[s] == (if p < 3 then Up(old(count[s]), p) else old(count[s]))
      && mix[s] == (if p < 3 then Xor64(old(mix[s]), hash) else old(mix[s]))
    ensures overflow <==> exists s: nat :: s < count.Length && sh.Touches(hash, s) && count[s] < 4
  {
    SlotsGeometry(sh, hash);
    SlotsDistinct(sh, hash);
    var slots := sh.Slots(hash);
    overflow := false;
    for position := 0 to 3
      invariant forall s: nat :: s < count.Length ==>
        var p := sh.PositionOf(hash, s);
        && count[s] == (if p < position then Up(old(count[s]), p) else old(count[s]))
        && mix[s] == (if p < position then Xor64(old(mix[s]), hash) else old(mix[s]))
      invariant overflow <==> exists s: nat :: s < count.Length && sh.PositionOf(hash, s) < position && count[s] < 4
    {
      hide Xor, Xor64, Xor8, Shr, Low, Pow2, Shape.Slots, Up;
      var slot := slots[position];
      count[slot] := Up(count[slot], position);
      mix[slot] := Xor64(mix[slot], hash);
      overflow := overflow || count[slot] < 4;
    }
  }

  method CountKeys(sh: Shape, keys: seq<U64>, seed: U64, count: array<U8>, mix: array<U64>)
    returns (overflow: bool)
    requires sh.Valid() && count.Length == mix.Length == sh.ArrayLength()
    requires count as object != mix as object
    modifies count, mix
    ensures Counted(sh, count[..], mix[..], HashAll(keys, seed))
    ensures overflow <==> Full(sh, HashAll(keys, seed))
  {
    hide *;
    forall s | 0 <= s < count.Length { count[s] := 0; }
    forall s | 0 <= s < mix.Length { mix[s] := 0; }
    overflow := false;
    ghost var hs := HashAll(keys, seed);
    CountedEmpty(sh, count[..], mix[..]);
    assert hs[..0] == [];
    for k := 0 to |keys|
      invariant Counted(sh, count[..], mix[..], hs[..k])
      invariant overflow <==> Full(sh, hs[..k])
    {
      ghost var before, mixed := count[..], mix[..];
      var hash := Mix(keys[k], seed);
      var over := AddHash(sh, hash, count, mix);
      CountStep(sh, hs, k, before, mixed, count[..], mix[..]);
      OverflowStep(sh, hs, k, count[..], mix[..], over);
      overflow := overflow || over;
    }
    assert hs[..|keys|] == hs;
  }

  lemma CountStep(sh: Shape, hs: seq<U64>, k: nat, count: seq<U8>, mix: seq<U64>, count': seq<U8>, mix': seq<U64>)
    requires k < |hs| && Counted(sh, count, mix, hs[..k])
    requires |count'| == |mix'| == |count|
    requires forall s: nat :: s < |count| ==>
      var p := sh.PositionOf(hs[k], s);
      && count'[s] == (if p < 3 then Up(count[s], p) else count[s])
      && mix'[s] == (if p < 3 then Xor64(mix[s], hs[k]) else mix[s])
    ensures Counted(sh, count', mix', hs[..k + 1])
  {
    assert hs[..k + 1][..k] == hs[..k];
    forall s: nat | s < |count|
      ensures SlotExact(sh, count'[s], mix'[s], hs[..k + 1], s)
    {
      hide Xor, Xor64, Xor8, Shr, Low, Pow2, Shape.Slots, Up, Encoded;
      var t := TallyOf(sh, hs[..k], s);
      assert SlotExact(sh, count[s], mix[s], hs[..k], s);
      assert TallyOf(sh, hs[..k + 1], s) == Count(sh, t, hs[k], s);
      if sh.Touches(hs[k], s) {
        UpExact(t, hs[k], sh.PositionOf(hs[k], s));
      }
    }
  }

  lemma CountedEmpty(sh: Shape, count: seq<U8>, mix: seq<U64>)
    requires |count| == |mix| == sh.ArrayLength()
    requires forall s :: 0 <= s < |count| ==> count[s] == 0 && mix[s] == 0
    ensures Counted(sh, count, mix, [])
    ensures !Full(sh, [])
  {
  }

  /** A counter below four after an addition has just wrapped: overflow is
      reported exactly when some slot's true count reaches 64. */
  lemma OverflowStep(sh: Shape, hs: seq<U64>, k: nat, count: seq<U8>, mix: seq<U64>, over: bool)
    requires sh.Valid() && k < |hs| && Counted(sh, count, mix, hs[..k + 1])
    requires over <==> exists s: nat :: s < |count| && sh.Touches(hs[k], s) && count[s] < 4
    ensures Full(sh, hs[..k + 1]) <==> Full(sh, hs[..k]) || over
  {
    hide TallyOf, Encoded, Shape.Slots, Shape.ArrayLength, Shape.PositionOf;
    if Full(sh, hs[..k]) {
      var s: nat :| Heavy(sh, hs[..k], s);
      HeavyStep(sh, hs, k, s);
      assert Heavy(sh, hs[..k + 1], s);
    }
    if over {
      var s: nat :| s < |count| && sh.Touches(hs[k], s) && count[s] < 4;
      SlotWrap(sh, hs[..k + 1], count[s], mix[s], s);
      HeavyStep(sh, hs, k, s);
      assert Heavy(sh, hs[..k + 1], s);
    }
    if Full(sh, hs[..k + 1]) && !Full(sh, hs[..k]) {
      var s: nat :| Heavy(sh, hs[..k + 1], s);
      HeavyStep(sh, hs, k, s);
      assert !Heavy(sh, hs[..k], s);
      SlotsDistinct(sh, hs[k]);
      assert sh.Touches(hs[k], s);
      SlotWrap(sh, hs[..k + 1], count[s], mix[s], s);
    }
  }

  lemma SlotWrap(sh: Shape, hs: seq<U64>, c: U8, m: U64, s: nat)
    requires SlotExact(sh, c, m, hs, s)
    ensures c < 4 <==> TallyOf(sh, hs, s).num % 64 == 0
  {
  }

  lemma HeavyStep(sh: Shape, hs: seq<U64>, k: nat, s: nat)
    requires k < |hs|
    ensures TallyOf(sh, hs[..k + 1], s).num == TallyOf(sh, hs[..k], s).num + if sh.Touches(hs[k], s) then 1 else 0
  {
    assert hs[..k + 1][..k] == hs[..k];
  }

  // ---- peeling ----

  /** Counters are exact for the hashes that remain, in every slot no removal
      owns; the owned slots touch none of them. */
  ghost predicate Remaining(sh: Shape, count: seq<U8>, mix: seq<U64>, rest: seq<U64>, owned: set<nat>) {
    && |count| == |mix| == sh.ArrayLength()
    && !Full(sh, rest)
    && (forall s: nat :: s < |count| && s !in owned ==> SlotExact(sh, count[s], mix[s], rest, s))
    && forall s: nat :: s in owned ==> TallyOf(sh, rest, s).num == 0
  }

  /** The stack holds each slot once, never an owned one; every slot with one
      hash is on it, and every slot with more was never pushed. */
  ghost predicate Agenda(sh: Shape, rest: seq<U64>, owned: set<nat>, alone: seq<nat>, unseen: set<nat>) {
    && Stack(alone, unseen)
    && (forall s :: s in alone ==> s < sh.ArrayLength() && s !in owned)
    && owned !! unseen
    && (forall s: nat :: TallyOf(sh, rest, s).num == 1 ==> s in alone)
    && forall s: nat :: TallyOf(sh, rest, s).num >= 2 ==> s in unseen
  }

  ghost predicate Owns(sh: Shape, order: seq<Peeled>, owned: set<nat>) {
    && InRange(order)
    && Triangular(sh, order)
    && forall i :: 0 <= i < |order| ==> OwnSlot(sh, order[i]) in owned
  }

  /** The slots that hold exactly one hash, in slot order. */
  method Singles(count: array<U8>) returns (alone: seq<nat>)
    ensures forall i, j :: 0 <= i < j < |alone| ==> alone[i] != alone[j]
    ensures forall s: nat :: s in alone <==> s < count.Length && count[s] / 4 == 1
  {
    alone := [];
    for slot := 0 to count.Length
      invariant forall i, j :: 0 <= i < j < |alone| ==> alone[i] != alone[j]
      invariant forall s: nat :: s in alone <==> s < slot && count[s] / 4 == 1
    {
      if count[slot] / 4 == 1 {
        alone := alone + [slot];
      }
    }
  }

  /** Takes `hash` out of one other slot, stacking the slot if one hash is left. */
  method TakeOut(slot: nat, position: nat, hash: U64, count: array<U8>, mix: array<U64>, alone: seq<nat>)
    returns (stack: seq<nat>)
    requires slot < count.Length == mix.Length && position < 3
    requires count as object != mix as object
    modifies count, mix
    ensures count[..] == old(count[..])[slot := Down(old(count[slot]), position)]
    ensures mix[..] == old(mix[..])[slot := Xor64(old(mix[slot]), hash)]
    ensures stack == if old(count[slot]) / 4 == 2 then alone + [slot] else alone
  {
    stack := if count[slot] / 4 == 2 then alone + [slot] else alone;
    count[slot] := Down(count[slot], position);
    mix[slot] := Xor64(mix[slot], hash);
  }

  /** Removes every hash that can be removed. What remains is empty or stuck. */
  method Peel(sh: Shape, ghost hs: seq<U64>, count: array<U8>, mix: array<U64>)
    returns (order: seq<Peeled>, ghost rest: seq<U64>)
    requires sh.Valid() && count as object != mix as object
    requires Counted(sh, count[..], mix[..], hs) && !Full(sh, hs)
    modifies count, mix
    ensures InRange(order) && Triangular(sh, order)
    ensures multiset(HashesOf(order)) + multiset(rest) == multiset(hs)
    ensures rest == [] || Stuck(sh, rest)
  {
    hide *;
    order, rest := [], hs;
    var alone := Singles(count);
    ghost var owned: set<nat> := {};
    ghost var unseen: set<nat> := set s: nat | s < count.Length && s !in alone;
    PeelStart(sh, hs, count[..], mix[..], alone, unseen);
    while alone != []
      invariant Remaining(sh, count[..], mix[..], rest, owned)
      invariant Agenda(sh, rest, owned, alone, unseen)
      invariant Owns(sh, order, owned)
      invariant multiset(HashesOf(order)) + multiset(rest) == multiset(hs)
      decreases |unseen| + |alone|
    {
      var slot := alone[|alone| - 1];
      ghost var before, mixed, stack := count[..], mix[..], alone;
      PopCount(sh, before, mixed, rest, owned, alone, unseen);
      alone := alone[..|alone| - 1];
      if count[slot] / 4 != 1 {
        PopSpent(sh, rest, owned, stack, unseen);
        continue;
      }
      var hash, found := mix[slot], count[slot] % 4;
      ghost var i := PopSingle(sh, before, mixed, rest, owned, slot);
      SlotsDistinct(sh, hash);
      SlotsGeometry(sh, hash);
      OrderStep(sh, before, mixed, order, rest, hs, owned, i, Peeled(hash, found), slot);
      order := order + [Peeled(hash, found)];
      var slots := sh.Slots(hash);
      var p, q := (found + 1) % 3, (found + 2) % 3;
      Others(sh, before, mixed, rest, owned, i, found);
      alone := TakeOut(slots[p], p, hash, count, mix, alone);
      alone := TakeOut(slots[q], q, hash, count, mix, alone);
      PushedTwice(stack[..|stack| - 1], before, slots[p], slots[q], p);
      RemainStep(sh, before, mixed, rest, owned, i, found, count[..], mix[..]);
      ghost var left := Unsee(Unsee(unseen, TallyOf(sh, rest, slots[p]).num == 2, slots[p]),
                             TallyOf(sh, rest, slots[q]).num == 2, slots[q]);
      AgendaStep(sh, rest, owned, stack, unseen, i, slot, slots[p], slots[q], alone, left);
      rest, owned, unseen := Without(rest, i), owned + {slot}, left;
    }
    PeelEnd(sh, rest, owned, unseen, order);
  }

  function PushOnto(alone: seq<nat>, pushA: bool, pushB: bool, a: nat, b: nat): seq<nat> {
    var one := if pushA then alone + [a] else alone;
    if pushB then one + [b] else one
  }

  lemma PeelStart(sh: Shape, hs: seq<U64>, count: seq<U8>, mix: seq<U64>, alone: seq<nat>, unseen: set<nat>)
    requires sh.Valid() && Counted(sh, count, mix, hs) && !Full(sh, hs)
    requires forall i, j :: 0 <= i < j < |alone| ==> alone[i] != alone[j]
    requires forall s: nat :: s in alone <==> s < |count| && count[s] / 4 == 1
    requires forall s: nat :: s in unseen <==> s < |count| && s !in alone
    ensures Remaining(sh, count, mix, hs, {})
    ensures Agenda(sh, hs, {}, alone, unseen)
    ensures Owns(sh, [], {})
    ensures multiset(HashesOf([])) + multiset(hs) == multiset(hs)
  {
    forall s: nat
      ensures TallyOf(sh, hs, s).num > 0 ==> s < |count|
      ensures s < |count| ==> count[s] / 4 == TallyOf(sh, hs, s).num
    {
      if TallyOf(sh, hs, s).num > 0 {
        TallyInRange(sh, hs, s);
      }
      if s < |count| {
        SlotCount(sh, count[s], mix[s], hs, s);
      }
    }
    assert HashesOf([]) == [];
  }

  lemma TallyInRange(sh: Shape, hs: seq<U64>, s: nat)
    requires sh.Valid() && TallyOf(sh, hs, s).num > 0
    ensures s < sh.ArrayLength()
  {
    hide TallyOf, Shape.Slots, Shape.PositionOf;
    TallyZero(sh, hs, s);
    var i :| 0 <= i < |hs| && sh.Touches(hs[i], s);
    SlotsDistinct(sh, hs[i]);
  }

  lemma SlotCount(sh: Shape, c: U8, m: U64, hs: seq<U64>, s: nat)
    requires SlotExact(sh, c, m, hs, s) && !Full(sh, hs)
    ensures c / 4 == TallyOf(sh, hs, s).num && c % 4 == TallyOf(sh, hs, s).tag
  {
    hide TallyOf;
    assert !Heavy(sh, hs, s);
    var t := TallyOf(sh, hs, s);
    Quarter(4 * t.num + t.tag, t.num, t.tag);
  }

  lemma PopCount(sh: Shape, count: seq<U8>, mix: seq<U64>, rest: seq<U64>, owned: set<nat>, alone: seq<nat>, unseen: set<nat>)
    requires Remaining(sh, count, mix, rest, owned) && Agenda(sh, rest, owned, alone, unseen) && alone != []
    ensures var s := alone[|alone| - 1];
      s < |count| && s !in owned && count[s] / 4 == TallyOf(sh, rest, s).num
  {
    var s := alone[|alone| - 1];
    assert s in alone;
    SlotCount(sh, count[s], mix[s], rest, s);
  }

  /** A slot emptied after it was stacked is dropped without a removal. */
  lemma PopSpent(sh: Shape, rest: seq<U64>, owned: set<nat>, alone: seq<nat>, unseen: set<nat>)
    requires Agenda(sh, rest, owned, alone, unseen) && alone != []
    requires TallyOf(sh, rest, alone[|alone| - 1]).num != 1
    ensures Agenda(sh, rest, owned, alone[..|alone| - 1], unseen)
  {
    hide TallyOf, Stack;
    PopOne(alone, unseen);
    var spent, left := alone[|alone| - 1], alone[..|alone| - 1];
    assert forall x :: x in alone ==> x == spent || x in left;
    forall s: nat | TallyOf(sh, rest, s).num == 1
      ensures s in left
    {
      assert s in alone && s != spent;
    }
  }

  /** A slot with one hash names it: the word is the hash, the tag its position. */
  lemma PopSingle(sh: Shape, count: seq<U8>, mix: seq<U64>, rest: seq<U64>, owned: set<nat>, slot: nat) returns (i: nat)
    requires Remaining(sh, count, mix, rest, owned)
    requires slot < |count| && slot !in owned && count[slot] / 4 == 1
    ensures i < |rest| && rest[i] == mix[slot] && count[slot] % 4 < 3
    ensures sh.PositionOf(rest[i], slot) == count[slot] % 4
    ensures sh.Slots(rest[i])[count[slot] % 4] == slot
    ensures TallyOf(sh, Without(rest, i), slot).num == 0
  {
    hide TallyOf, Shape.Slots, Shape.PositionOf, Encoded;
    SlotCount(sh, count[slot], mix[slot], rest, slot);
    i := TallyOne(sh, rest, slot);
    CountWithout(sh, rest, i, slot);
  }

  lemma CountWithout(sh: Shape, rest: seq<U64>, i: nat, s: nat)
    requires i < |rest|
    ensures TallyOf(sh, rest, s).num
      == TallyOf(sh, Without(rest, i), s).num + if sh.Touches(rest[i], s) then 1 else 0
  {
    TallyWithout(sh, rest, i, s);
  }

  /** The other two slots of a removal. */
  lemma Others(sh: Shape, count: seq<U8>, mix: seq<U64>, rest: seq<U64>, owned: set<nat>, i: nat, found: nat)
    requires sh.Valid() && Remaining(sh, count, mix, rest, owned) && i < |rest| && found < 3
    ensures var s := sh.Slots(rest[i]);
      var a, b, own := s[(found + 1) % 3], s[(found + 2) % 3], s[found];
      && a < |count| && b < |count| && own < |count| && a != b && a != own && b != own
      && (forall x: nat :: sh.Touches(rest[i], x) <==> x == own || x == a || x == b)
      && a !in owned && b !in owned
      && count[a] / 4 == TallyOf(sh, rest, a).num && count[b] / 4 == TallyOf(sh, rest, b).num
      && forall x :: x in s ==> x < |count|
  {
    hide TallyOf, Shape.Slots, Encoded, SlotExact, Full, Shape.ArrayLength;
    var s := sh.Slots(rest[i]);
    var a, b := s[(found + 1) % 3], s[(found + 2) % 3];
    SlotsDistinct(sh, rest[i]);
    SlotsGeometry(sh, rest[i]);
    CountWithout(sh, rest, i, a);
    CountWithout(sh, rest, i, b);
    SlotCount(sh, count[a], mix[a], rest, a);
    SlotCount(sh, count[b], mix[b], rest, b);
  }

  lemma PushedTwice(alone: seq<nat>, count: seq<U8>, a: nat, b: nat, p: nat)
    requires a < |count| && b < |count| && a != b && p < 3
    ensures var one := if count[a] / 4 == 2 then alone + [a] else alone;
      (if count[a := Down(count[a], p)][b] / 4 == 2 then one + [b] else one)
        == PushOnto(alone, count[a] / 4 == 2, count[b] / 4 == 2, a, b)
  {
  }

  lemma OrderStep(sh: Shape, count: seq<U8>, mix: seq<U64>, order: seq<Peeled>, rest: seq<U64>, hs: seq<U64>, owned: set<nat>,
                  i: nat, e: Peeled, own: nat)
    requires Owns(sh, order, owned) && i < |rest| && e.hash == rest[i] && e.found < 3
    requires Remaining(sh, count, mix, rest, owned)
    requires multiset(HashesOf(order)) + multiset(rest) == multiset(hs)
    requires own == sh.Slots(rest[i])[e.found]
    ensures Owns(sh, order + [e], owned + {own})
    ensures multiset(HashesOf(order + [e])) + multiset(Without(rest, i)) == multiset(hs)
  {
    hide TallyOf, Shape.Slots, Shape.PositionOf;
    assert HashesOf(order + [e]) == HashesOf(order) + [e.hash];
    MultisetSplit(rest, i);
    forall j | 0 <= j < |order|
      ensures !sh.Touches(e.hash, OwnSlot(sh, order[j]))
    {
      TallyZero(sh, rest, OwnSlot(sh, order[j]));
    }
  }

  lemma RemainStep(sh: Shape, count: seq<U8>, mix: seq<U64>, rest: seq<U64>, owned: set<nat>, i: nat, found: nat,
                   count': seq<U8>, mix': seq<U64>)
    requires sh.Valid() && Remaining(sh, count, mix, rest, owned) && i < |rest| && found < 3
    requires var s := sh.Slots(rest[i]);
      var p, q := (found + 1) % 3, (found + 2) % 3;
      && s[0] < |count| && s[1] < |count| && s[2] < |count| && s[p] != s[q]
      && count' == count[s[p] := Down(count[s[p]], p)][s[q] := Down(count[s[q]], q)]
      && mix' == mix[s[p] := Xor64(mix[s[p]], rest[i])][s[q] := Xor64(mix[s[q]], rest[i])]
    requires TallyOf(sh, Without(rest, i), sh.Slots(rest[i])[found]).num == 0
    ensures Remaining(sh, count', mix', Without(rest, i), owned + {sh.Slots(rest[i])[found]})
  {
    hide TallyOf, Shape.Slots, Shape.PositionOf, Encoded, Down, Xor64, SlotExact, Shape.ArrayLength;
    var h, rest', s := rest[i], Without(rest, i), sh.Slots(rest[i]);
    SlotsDistinct(sh, h);
    forall x: nat
      ensures TallyOf(sh, rest', x).num <= TallyOf(sh, rest, x).num
      ensures Heavy(sh, rest', x) ==> Heavy(sh, rest, x)
      ensures x in owned ==> TallyOf(sh, rest', x).num == 0
    {
      CountWithout(sh, rest, i, x);
    }
    forall x: nat | x < |count| && x !in owned && x != s[found]
      ensures SlotExact(sh, count'[x], mix'[x], rest', x)
    {
      var pos := sh.PositionOf(h, x);
      if sh.Touches(h, x) {
        assert pos != found;
        SlotDown(sh, count[x], mix[x], rest, i, x);
      } else {
        SlotSame(sh, count[x], mix[x], rest, i, x);
      }
    }
  }

  lemma SlotDown(sh: Shape, c: U8, m: U64, rest: seq<U64>, i: nat, x: nat)
    requires i < |rest| && sh.Touches(rest[i], x) && SlotExact(sh, c, m, rest, x)
    ensures SlotExact(sh, Down(c, sh.PositionOf(rest[i], x)), Xor64(m, rest[i]), Without(rest, i), x)
  {
    hide TallyOf, Shape.Slots, Shape.PositionOf, Encoded, Down, Xor;
    var h, t := rest[i], TallyOf(sh, Without(rest, i), x);
    TallyWithout(sh, rest, i, x);
    TallyTagBound(sh, Without(rest, i), x);
    DownExact(t, h, sh.PositionOf(h, x));
    XorAssoc(t.mix, h, h);
    XorSelf(h);
    XorZero(t.mix);
  }

  lemma SlotSame(sh: Shape, c: U8, m: U64, rest: seq<U64>, i: nat, x: nat)
    requires i < |rest| && !sh.Touches(rest[i], x) && SlotExact(sh, c, m, rest, x)
    ensures SlotExact(sh, c, m, Without(rest, i), x)
  {
    hide TallyOf, Shape.Slots, Shape.PositionOf, Encoded;
    TallyWithout(sh, rest, i, x);
  }

  /** Removing a hash with slots `own`, `a` and `b` stacks exactly those of `a`
      and `b` that are left with one hash; each was never stacked before. */
  lemma AgendaStep(sh: Shape, rest: seq<U64>, owned: set<nat>, alone: seq<nat>, unseen: set<nat>,
                   i: nat, own: nat, a: nat, b: nat, alone': seq<nat>, unseen': set<nat>)
    requires sh.Valid() && Agenda(sh, rest, owned, alone, unseen)
    requires alone != [] && own == alone[|alone| - 1]
    requires i < |rest| && forall x: nat :: sh.Touches(rest[i], x) <==> x == own || x == a || x == b
    requires a != b && a != own && b != own
    requires TallyOf(sh, rest, own).num == 1
    requires a !in owned && b !in owned
    requires alone' == PushOnto(alone[..|alone| - 1], TallyOf(sh, rest, a).num == 2, TallyOf(sh, rest, b).num == 2, a, b)
    requires unseen' == Unsee(Unsee(unseen, TallyOf(sh, rest, a).num == 2, a), TallyOf(sh, rest, b).num == 2, b)
    ensures Agenda(sh, Without(rest, i), owned + {own}, alone', unseen')
    ensures |unseen'| + |alone'| == |unseen| + |alone| - 1
  {
    hide TallyOf, Shape.Touches, Shape.ArrayLength, PushOnto, Stack, Without;
    var pa, pb := TallyOf(sh, rest, a).num == 2, TallyOf(sh, rest, b).num == 2;
    var rest' := Without(rest, i);
    StackStep(alone, unseen, a, b, pa, pb);
    TouchedInRange(sh, rest, i, a, b, own);
    forall x: nat
      ensures TallyOf(sh, rest', x).num == 1 ==> x in alone'
      ensures TallyOf(sh, rest', x).num >= 2 ==> x in unseen'
    {
      CountWithout(sh, rest, i, x);
    }
    assert own in alone;
    forall x | x in alone'
      ensures x < sh.ArrayLength() && x !in owned + {own}
    {
    }
    assert (owned + {own}) !! unseen' by {
      StackDisjoint(alone, unseen, own);
    }
  }

  lemma StackDisjoint(alone: seq<nat>, unseen: set<nat>, x: nat)
    requires Stack(alone, unseen) && x in alone
    ensures x !in unseen
  {
  }

  lemma TouchedInRange(sh: Shape, rest: seq<U64>, i: nat, a: nat, b: nat, own: nat)
    requires sh.Valid() && i < |rest|
    requires sh.Touches(rest[i], a) && sh.Touches(rest[i], b) && sh.Touches(rest[i], own)
    ensures a < sh.ArrayLength() && b < sh.ArrayLength() && own < sh.ArrayLength()
  {
    hide Shape.Touches, Shape.ArrayLength;
    SlotsDistinct(sh, rest[i]);
  }

  ghost predicate Stack(alone: seq<nat>, unseen: set<nat>) {
    && (forall i, j :: 0 <= i < j < |alone| ==> alone[i] != alone[j])
    && forall s :: s in alone ==> s !in unseen
  }

  ghost function Unsee(unseen: set<nat>, push: bool, slot: nat): set<nat> {
    if push then unseen - {slot} else unseen
  }

  lemma PushOne(alone: seq<nat>, unseen: set<nat>, push: bool, slot: nat)
    requires Stack(alone, unseen) && (push ==> slot in unseen)
    ensures var alone' := if push then alone + [slot] else alone;
      && Stack(alone', Unsee(unseen, push, slot))
      && (forall x :: x in alone' <==> x in alone || (push && x == slot))
      && |Unsee(unseen, push, slot)| + |alone'| == |unseen| + |alone|
  {
  }

  lemma PopOne(alone: seq<nat>, unseen: set<nat>)
    requires Stack(alone, unseen) && alone != []
    ensures Stack(alone[..|alone| - 1], unseen)
    ensures forall x :: x in alone[..|alone| - 1] <==> x in alone && x != alone[|alone| - 1]
  {
  }

  /** The stack and the never-stacked slots after one removal. */
  lemma StackStep(alone: seq<nat>, unseen: set<nat>, a: nat, b: nat, pa: bool, pb: bool)
    requires Stack(alone, unseen) && alone != [] && a != b
    requires (pa ==> a in unseen) && (pb ==> b in unseen)
    ensures var alone' := PushOnto(alone[..|alone| - 1], pa, pb, a, b);
      var unseen' := Unsee(Unsee(unseen, pa, a), pb, b);
      && Stack(alone', unseen')
      && (forall x :: x in alone' <==>
            (x in alone && x != alone[|alone| - 1]) || (pa && x == a) || (pb && x == b))
      && |unseen'| + |alone'| == |unseen| + |alone| - 1
  {
    PopOne(alone, unseen);
    var front := alone[..|alone| - 1];
    PushOne(front, unseen, pa, a);
    PushOne(if pa then front + [a] else front, Unsee(unseen, pa, a), pb, b);
  }

  lemma PeelEnd(sh: Shape, rest: seq<U64>, owned: set<nat>, unseen: set<nat>, order: seq<Peeled>)
    requires Agenda(sh, rest, owned, [], unseen) && Owns(sh, order, owned)
    ensures rest == [] || Stuck(sh, rest)
    ensures InRange(order) && Triangular(sh, order)
  {
  }

  // ---- back-substitution ----

  /** Giving a slot the exclusive or of the fingerprint and the other two slots
      makes all four cancel, whichever of the three positions it is. */
  lemma FourCancel(f: U8, a: U8, b: U8)
    ensures var x := Xor8(Xor8(f, a), b);
      && Xor8(Xor8(Xor8(f, x), a), b) == 0
      && Xor8(Xor8(Xor8(f, b), x), a) == 0
      && Xor8(Xor8(Xor8(f, a), b), x) == 0
  {
    hide Xor, Xor8;
    var g := Xor(f, a);
    var x := Xor(g, b);
    XorSelf(x);
    XorSwap(f, x, a);
    XorSwap(g, x, b);
    XorSwap(f, a, b);
    XorSwap(Xor(f, b), x, a);
  }

  /** Assigns the removals' fingerprints, last removed first. */
  method BackSubstitute(sh: Shape, order: seq<Peeled>, fp: array<U8>)
    requires sh.Valid() && fp.Length == sh.ArrayLength()
    requires InRange(order) && Triangular(sh, order)
    modifies fp
    ensures forall i :: 0 <= i < |order| ==> Holds(sh, fp[..], order[i].hash)
  {
    hide *;
    forall s | 0 <= s < fp.Length { fp[s] := 0; }
    for i := |order| downto 0
      invariant forall j :: i <= j < |order| ==> Holds(sh, fp[..], order[j].hash)
    {
      var hash, found := order[i].hash, order[i].found;
      ghost var before := fp[..];
      SlotsGeometry(sh, hash);
      OrderAt(order, i);
      var slots := sh.Slots(hash);
      var a, b := slots[(found + 1) % 3], slots[(found + 2) % 3];
      var value := Xor8(Xor8(Fingerprint(hash), fp[a]), fp[b]);
      fp[slots[found]] := value;
      OwnHolds(sh, before, hash, found);
      forall j | i < j < |order|
        ensures Holds(sh, fp[..], order[j].hash)
      {
        LaterHolds(sh, before, order, i, j, value);
      }
    }
  }

  lemma OrderAt(order: seq<Peeled>, i: nat)
    requires InRange(order) && i < |order|
    ensures order[i].found < 3
  {
  }

  lemma OwnHolds(sh: Shape, fp: seq<U8>, hash: U64, found: nat)
    requires sh.Valid() && |fp| == sh.ArrayLength() && found < 3
    requires forall p :: 0 <= p < 3 ==> sh.Slots(hash)[p] < |fp|
    ensures var s := sh.Slots(hash);
      Holds(sh, fp[s[found] := Xor8(Xor8(Fingerprint(hash), fp[s[(found + 1) % 3]]), fp[s[(found + 2) % 3]])], hash)
  {
    hide Xor, Xor8, Shape.Slots, Fingerprint, Shape.ArrayLength, Shape.Valid;
    var s := sh.Slots(hash);
    SlotsDistinct(sh, hash);
    FourCancel(Fingerprint(hash), fp[s[(found + 1) % 3]], fp[s[(found + 2) % 3]]);
  }

  lemma LaterHolds(sh: Shape, fp: seq<U8>, order: seq<Peeled>, i: nat, j: nat, value: U8)
    requires sh.Valid() && |fp| == sh.ArrayLength() && i < j < |order|
    requires InRange(order) && Triangular(sh, order) && Holds(sh, fp, order[j].hash)
    requires sh.Slots(order[i].hash)[order[i].found] < |fp|
    ensures Holds(sh, fp[sh.Slots(order[i].hash)[order[i].found] := value], order[j].hash)
  {
    hide Xor, Xor8, Shape.Slots, Fingerprint, Shape.ArrayLength, Shape.Valid;
    var own := OwnSlot(sh, order[i]);
    assert !sh.Touches(order[j].hash, own);
    SlotsGeometry(sh, order[j].hash);
  }

  // ---- construction ----

  /** What a finished filter promises for the keys it was built from. */
  ghost predicate FilterFor(f: Filter, keys: seq<U64>) {
    && f.shape.Valid()
    && |f.fingerprints| == f.shape.ArrayLength()
    && f.fingerprints != []
    && Peels(f.shape, HashAll(keys, f.seed))
    && forall key :: key in keys ==> f.Contains(key)
  }

  /** One attempt: succeeds exactly when the hashes fit six-bit counters and
      some order peels them all. */
  method TrySeed(sh: Shape, keys: seq<U64>, seed: U64, fp: array<U8>, count: array<U8>, mix: array<U64>)
    returns (built: bool)
    requires sh.Valid() && fp.Length == count.Length == mix.Length == sh.ArrayLength()
    requires count as object != mix as object && fp as object != mix as object && fp != count
    modifies fp, count, mix
    ensures built <==> Peels(sh, HashAll(keys, seed))
    ensures built ==> forall key :: key in keys ==> Holds(sh, fp[..], Mix(key, seed))
  {
    hide *;
    ghost var hs := HashAll(keys, seed);
    var overflow := CountKeys(sh, keys, seed, count, mix);
    if overflow {
      FullFails(sh, hs);
      return false;
    }
    var order, rest := Peel(sh, hs, count, mix);
    MultisetSizes(HashesOf(order), rest, hs);
    if |order| != |keys| {
      StuckFails(sh, hs, rest, order);
      return false;
    }
    BackSubstitute(sh, order, fp);
    PeeledAll(sh, hs, order, rest);
    forall key | key in keys
      ensures Holds(sh, fp[..], Mix(key, seed))
    {
      var i :| 0 <= i < |keys| && keys[i] == key;
      assert hs[i] in multiset(hs);
      assert hs[i] in HashesOf(order);
    }
    built := true;
  }

  lemma FullFails(sh: Shape, hs: seq<U64>)
    requires Full(sh, hs)
    ensures !Peels(sh, hs)
  {
    var s: nat :| Heavy(sh, hs, s);
    assert TallyOf(sh, hs, s).num >= 64;
  }

  lemma MultisetSizes(a: seq<U64>, b: seq<U64>, c: seq<U64>)
    requires multiset(a) + multiset(b) == multiset(c)
    ensures |a| + |b| == |c|
  {
    assert |multiset(a) + multiset(b)| == |a| + |b|;
  }

  lemma StuckFails(sh: Shape, hs: seq<U64>, rest: seq<U64>, order: seq<Peeled>)
    requires sh.Valid() && (rest == [] || Stuck(sh, rest)) && |order| != |hs|
    requires multiset(HashesOf(order)) + multiset(rest) == multiset(hs)
    ensures !Peels(sh, hs)
  {
    MultisetSizes(HashesOf(order), rest, hs);
    if Peels(sh, hs) {
      var o :| IsPeelOrder(sh, o, hs);
      StuckHasNoOrder(sh, o, hs, rest);
    }
  }

  lemma PeeledAll(sh: Shape, hs: seq<U64>, order: seq<Peeled>, rest: seq<U64>)
    requires sh.Valid() && !Full(sh, hs) && InRange(order) && Triangular(sh, order) && |order| == |hs|
    requires multiset(HashesOf(order)) + multiset(rest) == multiset(hs)
    ensures multiset(HashesOf(order)) == multiset(hs)
    ensures Peels(sh, hs)
  {
    MultisetSizes(HashesOf(order), rest, hs);
    assert rest == [];
    assert IsPeelOrder(sh, order, hs);
    forall s: nat
      ensures TallyOf(sh, hs, s).num < 64
    {
      assert !Heavy(sh, hs, s);
    }
  }

  /** The seed of attempt `t` when the state before the first is `state`. */
  function AttemptSeed(state: U64, t: nat): U64 {
    SeedOf(StateAfter(state, t + 1))
  }

  ghost predicate Succeeds(sh: Shape, keys: seq<U64>, state: U64, t: nat) {
    Peels(sh, HashAll(keys, AttemptSeed(state, t)))
  }

  /** Tries up to `ATTEMPTS` seeds at one shape: the first that peels wins. */
  method BuildShape(keys: seq<U64>, sh: Shape, state: U64) returns (r: Option<Filter>, state': U64, ghost used: nat)
    requires sh.Valid()
    ensures forall t: nat :: t < used && !(r.Some? && t == used - 1) ==> !Succeeds(sh, keys, state, t)
    ensures r.None? ==> used == ATTEMPTS
    ensures state' == StateAfter(state, used)
    ensures r.Some? ==> 1 <= used <= ATTEMPTS && Succeeds(sh, keys, state, used - 1)
    ensures r.Some? ==> r.value.seed == AttemptSeed(state, used - 1) && r.value.shape == sh
    ensures r.Some? ==> FilterFor(r.value, keys)
  {
    hide *;
    var length := sh.ArrayLength();
    var fp := new U8[length](_ => 0);
    var count := new U8[length](_ => 0);
    var mix := new U64[length](_ => 0);
    state' := state;
    StateZero(state);
    for t := 0 to ATTEMPTS
      invariant state' == StateAfter(state, t)
      invariant forall u: nat :: u < t ==> !Succeeds(sh, keys, state, u)
    {
      StateNext(state, t);
      state' := NextState(state');
      var seed := SeedOf(state');
      var built := TrySeed(sh, keys, seed, fp, count, mix);
      SucceedsAt(sh, keys, state, t);
      if built {
        r, used := Some(Filter(seed, sh, fp[..], 0)), t + 1;
        BuiltFilter(r.value, keys);
        return;
      }
    }
    r, used := None, ATTEMPTS;
  }

  lemma StateZero(state: U64)
    ensures StateAfter(state, 0) == state
  {
  }

  lemma StateNext(state: U64, t: nat)
    ensures StateAfter(state, t + 1) == NextState(StateAfter(state, t))
    ensures AttemptSeed(state, t) == SeedOf(StateAfter(state, t + 1))
  {
  }

  lemma SucceedsAt(sh: Shape, keys: seq<U64>, state: U64, t: nat)
    ensures Succeeds(sh, keys, state, t) <==> Peels(sh, HashAll(keys, AttemptSeed(state, t)))
  {
  }

  lemma BuiltFilter(f: Filter, keys: seq<U64>)
    requires f.shape.Valid() && |f.fingerprints| == f.shape.ArrayLength()
    requires Peels(f.shape, HashAll(keys, f.seed))
    requires forall key :: key in keys ==> Holds(f.shape, f.fingerprints, Mix(key, f.seed))
    ensures FilterFor(f, keys)
  {
    hide Holds, Mix, Peels, HashAll;
    MulMono(1, Pow2(f.shape.log2), 1);
    MulMono(1, f.shape.segments + 2, Pow2(f.shape.log2));
    assert f.fingerprints != [];
  }

  /** A filter over `keys`: at `shape` first, then at up to `GROWTH` more
      segments, the seed state running on. The empty key list gets no fingerprints. */
  method Build(keys: seq<U64>, shape: Shape, seedState: U64) returns (r: Option<Filter>)
    requires shape.Valid() && shape.segments + GROWTH < TWO32
    ensures keys == [] ==> r == Some(Filter(0, shape, [], 0))
    ensures keys != [] && r.Some? ==>
      && r.value.grown <= GROWTH && r.value.shape == Shape(shape.log2, shape.segments + r.value.grown)
      && FilterFor(r.value, keys)
      && FirstPeels(r.value.shape, keys, StateAfter(seedState, ATTEMPTS * r.value.grown), r.value.seed)
    ensures r.None? <==> keys != [] && NoSeedPeels(shape, keys, seedState)
    ensures keys != [] && r.Some? ==> forall g: nat, t: nat :: g < r.value.grown && t < ATTEMPTS ==>
      !Succeeds(Grown(shape, g), keys, StateAfter(seedState, ATTEMPTS * g), t)
  {
    hide Peels, Mix, HashAll, FilterFor, StateAfter, AttemptSeed, Succeeds, Shape.ArrayLength;
    if keys == [] {
      return Some(Filter(0, shape, [], 0));
    }
    var state := seedState;
    StateZero(seedState);
    for grown := 0 to GROWTH + 1
      invariant state == StateAfter(seedState, ATTEMPTS * grown)
      invariant forall g: nat, t: nat :: g < grown && t < ATTEMPTS ==>
        !Succeeds(Grown(shape, g), keys, StateAfter(seedState, ATTEMPTS * g), t)
    {
      ghost var used;
      ghost var from := state;
      r, state, used := BuildShape(keys, Grown(shape, grown), state);
      if r.Some? {
        FilterForGrown(r.value, keys, grown);
        assert FirstAt(Grown(shape, grown), keys, from, used - 1);
        r := Some(r.value.(grown := grown));
        return;
      }
      StatesAdd(seedState, ATTEMPTS * grown, ATTEMPTS);
    }
    r := None;
  }

  /** `seed` is the first of the attempts from `state` to peel the keys. */
  ghost predicate FirstPeels(sh: Shape, keys: seq<U64>, state: U64, seed: U64) {
    exists t: nat :: t < ATTEMPTS && FirstAt(sh, keys, state, t) && seed == AttemptSeed(state, t)
  }

  ghost predicate FirstAt(sh: Shape, keys: seq<U64>, state: U64, t: nat) {
    Succeeds(sh, keys, state, t) && forall u: nat :: u < t ==> !Succeeds(sh, keys, state, u)
  }

  /** No seed of any attempt, at the shape or grown, peels the keys. */
  ghost predicate NoSeedPeels(shape: Shape, keys: seq<U64>, seedState: U64) {
    forall g: nat, t: nat :: g <= GROWTH && t < ATTEMPTS ==>
      !Succeeds(Grown(shape, g), keys, StateAfter(seedState, ATTEMPTS * g), t)
  }

  function Grown(shape: Shape, g: nat): Shape {
    shape.(segments := shape.segments + g)
  }

  lemma FilterForGrown(f: Filter, keys: seq<U64>, grown: nat)
    requires FilterFor(f, keys)
    ensures FilterFor(f.(grown := grown), keys)
  {
    hide Holds, Mix, Peels, HashAll;
    assert forall key :: key in keys ==> f.Contains(key);
  }

  lemma {:induction false} StatesAdd(state: U64, m: nat, n: nat)
    ensures StateAfter(StateAfter(state, m), n) == StateAfter(state, m + n)
  {
    if n > 0 {
      StatesAdd(state, m, n - 1);
    }
  }

  /** A key list with a duplicate never yields a filter, at any shape or seed. */
  lemma DuplicatesNeverPeel(sh: Shape, keys: seq<U64>, seed: U64, a: nat, b: nat)
    requires sh.Valid() && a < b < |keys| && keys[a] == keys[b]
    ensures !Peels(sh, HashAll(keys, seed))
  {
    hide Mix, TallyOf;
    var hs := HashAll(keys, seed);
    if Peels(sh, hs) {
      var order :| IsPeelOrder(sh, order, hs);
      PeelOrderDistinct(sh, order, hs, a, b);
    }
  }
}
