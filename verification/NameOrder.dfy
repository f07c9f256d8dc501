/** Byte-string names in order, and the eight-byte prefix that orders them
    wherever two prefixes differ. */
module NameOrder {
  import opened Bits
  import opened Sorting

  type Name = seq<U8>

  /** Byte-wise lexicographic order, a shorter string before its extensions. */
  predicate NameLe(a: Name, b: Name) {
    a == [] || (b != [] && (a[0] < b[0] || (a[0] == b[0] && NameLe(a[1..], b[1..]))))
  }

  predicate NameLt(a: Name, b: Name) {
    NameLe(a, b) && a != b
  }

  lemma {:induction false} NameTotal(a: Name, b: Name)
    ensures NameLe(a, b) || NameLe(b, a)
  {
    if a != [] && b != [] && a[0] == b[0] {
      NameTotal(a[1..], b[1..]);
    }
  }

  lemma {:induction false} NameAntisymmetric(a: Name, b: Name)
    requires NameLe(a, b) && NameLe(b, a)
    ensures a == b
  {
    if a != [] && b != [] {
      NameAntisymmetric(a[1..], b[1..]);
      assert a == [a[0]] + a[1..] && b == [b[0]] + b[1..];
    }
  }

  lemma {:induction false} NameTransitive(a: Name, b: Name, c: Name)
    requires NameLe(a, b) && NameLe(b, c)
    ensures NameLe(a, c)
  {
    if a != [] && a[0] == b[0] == c[0] {
      NameTransitive(a[1..], b[1..], c[1..]);
    }
  }

  // ---- prefixes ----

  function Tail(name: Name): Name {
    if name == [] then [] else name[1..]
  }

  function Head(name: Name): U8 {
    if name == [] then 0 else name[0]
  }

  /** A name's first `n` bytes, padded with zeros. */
  function Padded(name: Name, n: nat): (r: Name)
    ensures |r| == n && forall i :: 0 <= i < n ==> r[i] == if i < |name| then name[i] else 0
  {
    if n == 0 then [] else [Head(name)] + Padded(Tail(name), n - 1)
  }

  function Pow256(n: nat): (r: nat)
    ensures r > 0
  {
    if n == 0 then 1 else 256 * Pow256(n - 1)
  }

  /** A byte string read as a big-endian number. */
  function BigEndian(bytes: seq<U8>): nat {
    if bytes == [] then 0 else BigEndian(bytes[..|bytes| - 1]) * 256 + bytes[|bytes| - 1]
  }

  lemma {:induction false} BigEndianHead(b: U8, rest: seq<U8>)
    ensures BigEndian([b] + rest) == b * Pow256(|rest|) + BigEndian(rest)
  {
    if rest == [] {
      assert [b] + rest == [b];
      assert [b][..0] == [];
    } else {
      var n := |rest| - 1;
      BigEndianHead(b, rest[..n]);
      assert ([b] + rest)[..n + 1] == [b] + rest[..n];
      Scale(b, Pow256(n), BigEndian(rest[..n]), rest[n]);
    }
  }

  lemma Scale(b: nat, w: nat, r: nat, last: nat)
    ensures (b * w + r) * 256 + last == b * (256 * w) + (r * 256 + last)
  {
  }

  lemma {:induction false} BigEndianBound(bytes: seq<U8>)
    ensures BigEndian(bytes) < Pow256(|bytes|)
  {
    if bytes != [] {
      BigEndianBound(bytes[..|bytes| - 1]);
    }
  }

  /** The sort key: the first eight bytes as one number. */
  function Prefix(name: Name): nat {
    BigEndian(Padded(name, 8))
  }

  /** A prefix is the name's first eight bytes, zeros after a shorter name. */
  lemma PrefixByte(name: Name, i: nat)
    requires i < 8
    ensures Prefix(name) / Pow256(7 - i) % 256 == if i < |name| then name[i] else 0
    ensures Prefix(name) < Pow256(8)
  {
    BigEndianAt(Padded(name, 8), i);
    BigEndianBound(Padded(name, 8));
  }

  lemma {:induction false} BigEndianAt(bytes: seq<U8>, i: nat)
    requires i < |bytes|
    ensures BigEndian(bytes) / Pow256(|bytes| - 1 - i) % 256 == bytes[i]
  {
    var n := |bytes| - 1;
    var front := BigEndian(bytes[..n]);
    if i < n {
      BigEndianAt(bytes[..n], i);
      DropByte(front, bytes[n], Pow256(n - 1 - i));
    } else {
      SplitByte(bytes[n], front);
    }
  }

  lemma DropByte(x: nat, last: U8, w: nat)
    requires w > 0
    ensures (x * 256 + last) / (256 * w) == x / w
  {
    DivMod(x, w);
    var q, r := x / w, x % w;
    assert x * 256 + last == q * (256 * w) + (r * 256 + last) by {
      Shift(q, w, r, last);
    }
    Quotient(x * 256 + last, q, 256 * w, r * 256 + last);
  }

  lemma Shift(q: nat, w: nat, r: nat, last: nat)
    ensures (q * w + r) * 256 + last == q * (256 * w) + (r * 256 + last)
  {
  }

  lemma Quotient(x: nat, q: nat, d: nat, r: nat)
    requires d > 0 && x == q * d + r && r < d
    ensures x / d == q
  {
    DivMod(x, d);
    MulUnique(d, q, r, x / d, x % d);
  }

  /** Prefixes order names wherever they differ. */
  lemma PrefixMonotone(a: Name, b: Name)
    requires NameLe(a, b)
    ensures Prefix(a) <= Prefix(b)
  {
    PaddedMonotone(a, b, 8);
  }

  lemma PrefixDecides(a: Name, b: Name)
    requires Prefix(a) < Prefix(b)
    ensures NameLt(a, b)
  {
    NameTotal(a, b);
    if NameLe(b, a) {
      PrefixMonotone(b, a);
    }
  }

  lemma {:induction false} PaddedMonotone(a: Name, b: Name, n: nat)
    requires NameLe(a, b)
    ensures BigEndian(Padded(a, n)) <= BigEndian(Padded(b, n))
  {
    hide BigEndian, Pow256;
    if n > 0 {
      var x, y := Padded(Tail(a), n - 1), Padded(Tail(b), n - 1);
      assert Padded(a, n) == [Head(a)] + x && Padded(b, n) == [Head(b)] + y;
      BigEndianHead(Head(a), x);
      BigEndianHead(Head(b), y);
      BigEndianBound(x);
      if Head(a) < Head(b) {
        HeadDecides(Head(a), Head(b), Pow256(n - 1), BigEndian(x), BigEndian(y));
      } else {
        PaddedMonotone(Tail(a), Tail(b), n - 1);
      }
    }
  }

  lemma HeadDecides(a: nat, b: nat, w: nat, x: nat, y: nat)
    requires a < b && x < w
    ensures a * w + x <= b * w + y
  {
    assert b * w == a * w + (b - a) * w;
    assert (b - a) * w >= 1 * w by { Grow(b - a, w); }
  }

  lemma Grow(k: nat, w: nat)
    requires k >= 1
    ensures k * w >= w
  {
    assert k * w == (k - 1) * w + w;
  }

  /** The build's comparison: prefixes first, then whole names. */
  predicate PrefixThenName(a: Name, b: Name) {
    Prefix(a) < Prefix(b) || (Prefix(a) == Prefix(b) && NameLe(a, b))
  }

  /** Comparing prefixes first changes nothing. */
  lemma PrefixThenNameIsNameLe(a: Name, b: Name)
    ensures PrefixThenName(a, b) <==> NameLe(a, b)
  {
    if Prefix(a) < Prefix(b) {
      PrefixDecides(a, b);
    }
    if NameLe(a, b) {
      PrefixMonotone(a, b);
    }
  }

  // ---- splitters ----

  predicate Rising(s: seq<nat>) {
    forall i, j :: 0 <= i < j < |s| ==> s[i] <= s[j]
  }

  /** How many leading splitters are at most `key`. */
  function PartOf(splitters: seq<nat>, key: nat): (p: nat)
    ensures p <= |splitters|
  {
    if splitters == [] || splitters[0] > key then 0 else 1 + PartOf(splitters[1..], key)
  }

  /** A binary partition point finds the same place. */
  method PartitionPoint(splitters: seq<nat>, key: nat) returns (p: nat)
    requires Rising(splitters)
    ensures p == PartOf(splitters, key)
  {
    p := |splitters|;
    var lo: nat := 0;
    while lo < p
      invariant lo <= p <= |splitters|
      invariant forall i :: 0 <= i < lo ==> splitters[i] <= key
      invariant forall i :: p <= i < |splitters| ==> splitters[i] > key
    {
      var mid := (lo + p) / 2;
      if splitters[mid] <= key {
        lo := mid + 1;
      } else {
        p := mid;
      }
    }
    PartAt(splitters, key, p);
  }

  lemma {:induction false} PartAt(splitters: seq<nat>, key: nat, p: nat)
    requires p <= |splitters|
    requires forall i :: 0 <= i < p ==> splitters[i] <= key
    requires p < |splitters| ==> splitters[p] > key
    ensures PartOf(splitters, key) == p
  {
    if p > 0 {
      PartAt(splitters[1..], key, p - 1);
    }
  }

  lemma {:induction false} PartBounds(splitters: seq<nat>, key: nat, i: nat)
    requires Rising(splitters) && i < |splitters|
    ensures i < PartOf(splitters, key) <==> splitters[i] <= key
  {
    if splitters[0] <= key && i > 0 {
      PartBounds(splitters[1..], key, i - 1);
    }
  }

  /** Every name of one part comes before every name of a later one. */
  lemma PartsInOrder(splitters: seq<nat>, a: Name, b: Name)
    requires Rising(splitters) && PartOf(splitters, Prefix(a)) < PartOf(splitters, Prefix(b))
    ensures NameLt(a, b)
  {
    hide Prefix;
    var p := PartOf(splitters, Prefix(a));
    PartBounds(splitters, Prefix(a), p);
    PartBounds(splitters, Prefix(b), p);
    PrefixDecides(a, b);
  }

  predicate NatLe(a: nat, b: nat) {
    a <= b
  }

  /** The `i`-th of `d` places spread evenly over `n`. */
  function Spread(i: nat, n: nat, d: nat): nat
    requires d > 0
  {
    i * n / d
  }

  /** A place is as near below its share as whole numbers allow. */
  lemma SpreadEven(i: nat, n: nat, d: nat)
    requires d > 0
    ensures Spread(i, n, d) * d <= i * n < (Spread(i, n, d) + 1) * d
  {
    DivMod(i * n, d);
  }

  /** The prefixes of names spread evenly over the list. */
  ghost function Sampled(names: seq<Name>, parts: nat): seq<nat> {
    var samples := if |names| < 256 * parts then |names| else 256 * parts;
    seq(samples, i requires 0 <= i < samples => SampleAt(names, samples, i))
  }

  ghost function SampleAt(names: seq<Name>, samples: nat, i: nat): nat
    requires i < samples <= |names|
  {
    SpreadBelow(i, |names|, samples);
    Prefix(names[Spread(i, |names|, samples)])
  }

  /** `x` is the `k`-th of `sample` in order. */
  ghost predicate OrderStatistic(sample: seq<nat>, k: nat, x: nat) {
    exists sorted: seq<nat> :: multiset(sorted) == multiset(sample) && Rising(sorted) && k < |sorted| && sorted[k] == x
  }

  /** Prefixes at regular places of a sorted sample: rising whatever the names
      are, and one fewer than the parts unless there is nothing to sample. */
  method Splitters(names: seq<Name>, parts: nat) returns (s: seq<nat>)
    requires parts >= 1
    ensures Rising(s) && |s| == if names == [] then 0 else parts - 1
    ensures forall p: nat :: 1 <= p <= |s| ==>
      OrderStatistic(Sampled(names, parts), Spread(p, |Sampled(names, parts)|, parts), s[p - 1])
  {
    hide *;
    if parts == 1 || names == [] {
      EmptyRises();
      return [];
    }
    var sample := Sample(names, parts);
    ghost var sampled := sample;
    var samples := |sample|;
    NatOrder();
    SortSorted(sample, NatLe);
    sample := Sort(sample, NatLe);
    SortedRises(sample);
    s := [];
    EmptyRises();
    ghost var at: nat := 0;
    for p := 1 to parts
      invariant |s| == p - 1 && Rising(s)
      invariant at <= Spread(p, samples, parts)
      invariant |s| > 0 ==> at < samples && s[p - 2] == sample[at]
      invariant forall q: nat :: 1 <= q < p ==> OrderStatistic(sampled, Spread(q, samples, parts), s[q - 1])
    {
      SpreadBelow(p, samples, parts);
      var next := Spread(p, samples, parts);
      SpreadRises(p, samples, parts);
      RisingAt(sample, at, next);
      RisingPush(s, sample[next]);
      IsStatistic(sampled, sample, next);
      s := s + [sample[next]];
      at := next;
    }
  }

  method Sample(names: seq<Name>, parts: nat) returns (sample: seq<nat>)
    requires parts >= 1 && names != []
    ensures sample == Sampled(names, parts) && sample != []
  {
    hide Prefix, Spread;
    var rows := |names|;
    var samples: nat := if rows < 256 * parts then rows else 256 * parts;
    sample := [];
    for i := 0 to samples
      invariant |sample| == i && forall j: nat :: j < i ==> sample[j] == SampleAt(names, samples, j)
    {
      SpreadBelow(i, rows, samples);
      sample := sample + [Prefix(names[Spread(i, rows, samples)])];
    }
  }

  lemma IsStatistic(sample: seq<nat>, sorted: seq<nat>, k: nat)
    requires multiset(sorted) == multiset(sample) && Rising(sorted) && k < |sorted|
    ensures OrderStatistic(sample, k, sorted[k])
  {
  }

  lemma EmptyRises()
    ensures Rising([])
  {
  }

  lemma RisingAt(s: seq<nat>, i: nat, j: nat)
    requires Rising(s) && i <= j < |s|
    ensures s[i] <= s[j]
  {
  }

  lemma RisingPush(s: seq<nat>, x: nat)
    requires Rising(s) && (|s| > 0 ==> s[|s| - 1] <= x)
    ensures Rising(s + [x])
  {
  }

  lemma NatOrder()
    ensures TotalOrder(NatLe)
  {
  }

  lemma SortedRises(s: seq<nat>)
    requires SortedBy(s, NatLe)
    ensures Rising(s)
  {
    assert forall i, j :: 0 <= i < j < |s| ==> NatLe(s[i], s[j]);
  }

  lemma SpreadBelow(i: nat, n: nat, d: nat)
    requires i < d && n > 0
    ensures Spread(i, n, d) < n
  {
    var q := i * n / d;
    assert q * d <= i * n;
    if q >= n {
      Wider(q, n, d);
      assert n * d == i * n + (d - i) * n;
      Grow(d - i, n);
    }
  }

  lemma Wider(a: nat, b: nat, w: nat)
    requires a >= b
    ensures a * w >= b * w
  {
    assert a * w == b * w + (a - b) * w;
  }

  lemma SpreadRises(i: nat, n: nat, d: nat)
    requires d > 0
    ensures Spread(i, n, d) <= Spread(i + 1, n, d)
  {
    assert (i + 1) * n == i * n + n;
    DivRises(i * n, (i + 1) * n, d);
  }

  lemma DivRises(a: nat, b: nat, d: nat)
    requires a <= b && d > 0
    ensures a / d <= b / d
  {
    var x, y := a / d, b / d;
    if y < x {
      assert x * d <= a;
      assert b < (y + 1) * d;
      Wider(x, y + 1, d);
    }
  }
}
