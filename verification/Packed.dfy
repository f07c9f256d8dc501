/** Bit-packed columns: a streaming writer, a random-access reader, a whole-run
    decoder, and the pass that yields every row. */
module Packed {
  import opened Bits
  import opened Basics

  const PAD: nat := 8
  const MAX_WIDTH: nat := 64
  const RUN: nat := 64

  /** The length of `max` in binary. */
  function Width(max: U64): nat {
    if max == 0 then 0 else 1 + Width(max / 2)
  }

  /** All of the low `width` bits set; none for width 0, where the word is shifted out. */
  function Mask(width: nat): U64
    requires width <= MAX_WIDTH
  {
    if width == 0 then 0 else ShrMax(64 - width); Shr(TWO64 - 1, 64 - width)
  }

  lemma {:induction false} ShrMax(n: nat)
    requires n <= 64
    ensures Shr(TWO64 - 1, n) == Pow2(64 - n) - 1
    ensures Shr(TWO64 - 1, n) < TWO64
  {
    hide Shr, Low, Pow2;
    Pow2Constants();
    Pow2Add(64 - n, n);
    var p, q := Pow2(64 - n), Pow2(n);
    assert TWO64 - 1 == (p - 1) * q + (q - 1) by {
      assert (p - 1) * q == p * q - q;
    }
    ShrLowUnique(TWO64 - 1, n, p - 1, q - 1);
    MulMono(1, q, p);
  }

  lemma MaskIsAllOnes(width: nat)
    requires width <= MAX_WIDTH
    ensures Mask(width) == Pow2(width) - 1
  {
    if width > 0 {
      ShrMax(64 - width);
    }
  }

  /** `Width` is the least width whose mask covers the value. */
  lemma {:induction false} WidthLeast(max: U64, width: nat)
    requires width <= MAX_WIDTH
    ensures max <= Mask(width) <==> Width(max) <= width
    decreases width
  {
    MaskIsAllOnes(width);
    if max > 0 && width > 0 {
      MaskIsAllOnes(width - 1);
      WidthLeast(max / 2, width - 1);
    }
  }

  function CeilDiv(a: nat, b: nat): nat
    requires b > 0
  {
    (a + b - 1) / b
  }

  /** Whole bytes for `count` values, and padding a load at the last may run into. */
  function Len(count: nat, width: nat): nat {
    CeilDiv(count * width, 8) + PAD
  }

  /** Before its padding a column has the fewest bytes that hold its bits. */
  lemma LenLeast(count: nat, width: nat)
    ensures Len(count, width) >= PAD && 8 * (Len(count, width) - PAD) >= count * width
    ensures Len(count, width) > PAD ==> 8 * (Len(count, width) - PAD - 1) < count * width
  {
  }

  // ---- the column as one number ----

  /** The number whose bits `i * width ..` are value `i`. */
  function Stream(values: seq<U64>, width: nat): nat {
    if values == [] then 0
    else
      var n := |values| - 1;
      Stream(values[..n], width) + values[n] * Pow2(n * width)
  }

  predicate Fits(values: seq<U64>, width: nat) {
    forall i :: 0 <= i < |values| ==> values[i] < Pow2(width)
  }

  lemma {:induction false} StreamBound(values: seq<U64>, width: nat)
    requires Fits(values, width)
    ensures Stream(values, width) < Pow2(|values| * width)
  {
    if values != [] {
      var n := |values| - 1;
      hide Pow2;
      StreamBound(values[..n], width);
      assert width + n * width == |values| * width;
      Pow2Add(width, n * width);
      RowBelow(Stream(values[..n], width), values[n], Pow2(n * width), Pow2(width));
    }
  }

  lemma RowBelow(low: nat, high: nat, p: nat, q: nat)
    requires low < p && high < q
    ensures low + high * p < q * p
  {
    MulMono(high + 1, q, p);
  }

  /** Value `i` is exactly the bits at `i * width`. */
  lemma {:induction false} StreamAt(values: seq<U64>, width: nat, i: nat)
    requires Fits(values, width) && i < |values|
    ensures Low(Shr(Stream(values, width), i * width), width) == values[i]
  {
    hide Shr, Low, Pow2;
    var n := |values| - 1;
    var front, v := Stream(values[..n], width), values[n];
    var x := Stream(values, width);
    StreamBound(values[..n], width);
    if i == n {
      ShrLowUnique(x, n * width, v, front);
      LowSmall(v, width);
    } else {
      StreamAt(values[..n], width, i);
      ShrLowUnique(x, n * width, v, front);
      MulMono(i + 1, n, width);
      assert i * width + width == (i + 1) * width;
      LowOfWindow(x, n * width, i * width, width);
    }
  }

  // ---- the writer ----

  /** `value << n` in 64 bits. */
  function Shl(value: U64, n: nat): U64 {
    (value * Pow2(n)) % TWO64
  }

  /** `value.checked_shr(n).unwrap_or(0)`: a shift of the whole word gives 0. */
  function CheckedShr(value: U64, n: nat): U64 {
    if n >= 64 then 0 else ShrLe(value, n); Shr(value, n)
  }

  function Or64(a: U64, b: U64): (r: U64)
    ensures r == Or(a, b)
  {
    Pow2Constants();
    LowSmall(a, 64);
    LowSmall(b, 64);
    OrLow(a, b, 64);
    ShrLow(Or(a, b), 64);
    OrBound(a, b, 64);
    Or(a, b)
  }

  lemma {:induction false} OrBound(a: nat, b: nat, n: nat)
    requires a < Pow2(n) && b < Pow2(n)
    ensures Or(a, b) < Pow2(n)
  {
    if n > 0 {
      OrBound(a / 2, b / 2, n - 1);
    }
  }

  lemma {:induction false} Pow2Monotone(m: nat, n: nat)
    requires m <= n
    ensures Pow2(m) <= Pow2(n)
  {
    if m < n {
      Pow2Monotone(m, n - 1);
    }
  }

  /** A shifted value lands above the pending bits. What does not fit the word
      is what `CheckedShr` keeps; nothing is lost or counted twice. */
  lemma PushExact(pending: U64, filled: nat, v: U64, width: nat)
    requires filled < 64 && width <= 64 && pending < Pow2(filled) && v < Pow2(width)
    ensures var word := Or(pending, Shl(v, filled));
      if filled + width < 64 then word == pending + v * Pow2(filled) && word < Pow2(filled + width)
      else
        var carry := CheckedShr(v, 64 - filled);
        word + carry * TWO64 == pending + v * Pow2(filled) && carry < Pow2(filled + width - 64)
  {
    hide Or, Shr, Low, Pow2;
    Pow2Constants();
    var p := Pow2(filled);
    if filled + width < 64 {
      Pow2Add(width, filled);
      RowBelow(pending, v, p, Pow2(width));
      Pow2Monotone(width + filled, 64);
      ShlSmall(v * p);
      OrDisjoint(pending, v, filled);
    } else {
      var high, low := Shr(v, 64 - filled), Low(v, 64 - filled);
      ShrLow(v, 64 - filled);
      Pow2Add(64 - filled, filled);
      RowBelow(0, low, p, Pow2(64 - filled));
      Scaled(v, high, low, Pow2(64 - filled), p);
      ModSplit(v * p, high, low * p);
      OrDisjoint(pending, low, filled);
      if filled == 0 {
        Pow2Zero();
        LowSmall(v, 64);
      } else {
        Pow2Add(filled + width - 64, 64 - filled);
        if high >= Pow2(filled + width - 64) {
          MulMono(Pow2(filled + width - 64), high, Pow2(64 - filled));
        }
      }
    }
  }

  lemma Scaled(v: nat, high: nat, low: nat, a: nat, p: nat)
    requires v == high * a + low
    ensures v * p == high * (a * p) + low * p
  {
    assert (high * a) * p == high * (a * p);
  }

  lemma Pow2Zero()
    ensures Pow2(0) == 1
  {
  }

  lemma ShlSmall(x: nat)
    ensures x < TWO64 ==> x % TWO64 == x
  {
  }

  lemma ModSplit(x: nat, q: nat, r: nat)
    requires x == q * TWO64 + r && r < TWO64
    ensures x % TWO64 == r
  {
  }

  /** The low `width` bits of a word. */
  function Cut(value: U64, width: nat): (r: U64)
    ensures r == Low(value, width)
  {
    LowBound(value, width);
    Low(value, width)
  }

  /** The bits not yet a full word, and how many they are. */
  class Writer {
    const width: nat
    const mask: U64
    var pending: U64
    var filled: nat

    /** `out` and the pending bits together are exactly `values`. */
    ghost predicate Valid(out: seq<U8>, values: seq<U64>)
      reads this
    {
      && width <= MAX_WIDTH && mask == Mask(width)
      && filled < 64 && pending < Pow2(filled)
      && 8 * |out| + filled == |values| * width
      && Fits(values, width)
      && FromBytes(out) + pending * Pow2(8 * |out|) == Stream(values, width)
    }

    constructor (width: nat)
      requires width <= MAX_WIDTH
      ensures this.width == width && Valid([], [])
    {
      this.width := width;
      mask := Mask(width);
      pending := 0;
      filled := 0;
    }

    /** Appends `value`, cut to the width. */
    method Push(out: seq<U8>, value: U64, ghost values: seq<U64>) returns (r: seq<U8>)
      requires Valid(out, values)
      modifies this
      ensures Valid(r, values + [Cut(value, width)])
    {
      hide Fits, Stream, FromBytes, Or, And, Low, Pow2, Mask, Shr, Shl, CheckedShr, ToBytes;
      MaskIsAllOnes(width);
      AndMask(value, width);
      ShrLow(value, width);
      LowBound(value, width);
      var v: U64 := And(value, mask);
      PushExact(pending, filled, v, width);
      ghost var was, had, at := pending, filled, 8 * |out|;
      pending := Or64(pending, Shl(v, filled));
      filled := filled + width;
      StreamPush(values, v, width);
      Pow2Add(had, at);
      Pow2Constants();
      Pow2Add(64, at);
      assert |values + [v]| * width == |values| * width + width;
      if filled < 64 {
        r := out;
        Reassemble(FromBytes(out), Pow2(at), was, Pow2(had), v, pending, 0, Stream(values, width));
      } else {
        ghost var word := pending;
        r := out + ToBytes(pending, 8);
        filled := filled - 64;
        pending := CheckedShr(v, width - filled);
        WordOut(out, word);
        Reassemble(FromBytes(out), Pow2(at), was, Pow2(had), v, word, pending, Stream(values, width));
      }
    }

    /** Ends the stream: what is pending, rounded up to bytes, then zeros. */
    method Finish(out: seq<U8>, ghost values: seq<U64>) returns (r: seq<U8>)
      requires Valid(out, values)
      ensures |r| == Len(|values|, width)
      ensures FromBytes(r) == Stream(values, width)
    {
      hide Fits, Stream, FromBytes, Or, And, Low, Pow2, Mask, Shr, ToBytes;
      var tail := CeilDiv(filled, 8);
      TailOut(out, pending, filled);
      r := out + ToBytes(pending, 8)[..tail];
      BytesConcat(r, ToBytes(0, PAD));
      ZeroBytes(PAD);
      r := r + ToBytes(0, PAD);
      assert CeilDiv(|values| * width, 8) == |out| + tail;
    }
  }

  lemma {:induction false} LowBound(a: nat, n: nat)
    ensures Low(a, n) <= a
  {
    if n > 0 {
      LowBound(a / 2, n - 1);
    }
  }

  lemma WordOut(out: seq<U8>, word: U64)
    ensures FromBytes(out + ToBytes(word, 8)) == FromBytes(out) + word * Pow2(8 * |out|)
    ensures |out + ToBytes(word, 8)| == |out| + 8
  {
    hide FromBytes, Pow2, ToBytes, Low;
    BytesConcat(out, ToBytes(word, 8));
    ToFromBytes(word, 8);
    Pow2Constants();
    LowSmall(word, 64);
  }

  lemma TailOut(out: seq<U8>, pending: U64, filled: nat)
    requires filled < 64 && pending < Pow2(filled)
    ensures CeilDiv(filled, 8) <= 8
    ensures FromBytes(out + ToBytes(pending, 8)[..CeilDiv(filled, 8)]) == FromBytes(out) + pending * Pow2(8 * |out|)
  {
    hide FromBytes, Pow2, ToBytes, Low;
    var tail := CeilDiv(filled, 8);
    var bytes := ToBytes(pending, 8);
    ToFromBytes(pending, 8);
    Pow2Constants();
    LowSmall(pending, 64);
    BytesSplit(bytes, tail);
    Pow2Monotone(filled, 8 * tail);
    LowSmall(pending, 8 * tail);
    BytesConcat(out, bytes[..tail]);
  }

  lemma StreamPush(values: seq<U64>, v: U64, width: nat)
    requires Fits(values, width) && v < Pow2(width)
    ensures Stream(values + [v], width) == Stream(values, width) + v * Pow2(|values| * width)
    ensures Fits(values + [v], width)
  {
    assert (values + [v])[..|values|] == values;
  }

  /** Moving a full word from the pending bits to the stream keeps the total. */
  lemma Reassemble(o: nat, p: nat, was: nat, h: nat, v: nat, word: nat, carry: nat, stream: nat)
    requires o + was * p == stream && word + carry * TWO64 == was + v * h
    ensures o + word * p + carry * (TWO64 * p) == stream + v * (h * p)
  {
    var c := carry * TWO64;
    assert (word + c) * p == word * p + c * p;
    assert (was + v * h) * p == was * p + (v * h) * p;
    assert c * p == carry * (TWO64 * p) by {
      assert carry * (TWO64 * p) == (carry * TWO64) * p;
    }
    assert (v * h) * p == v * (h * p);
  }

  // ---- the reader ----

  /** One unaligned 8-byte load. */
  function Word(bytes: seq<U8>, at: nat): U64
    requires at + 8 <= |bytes|
  {
    FromBytesBound(bytes[at..at + 8]);
    Pow2Constants();
    FromBytes(bytes[at..at + 8])
  }

  function ShrWord(word: U64, n: nat): (r: U64)
    ensures r == Shr(word, n)
  {
    ShrLe(word, n);
    Shr(word, n)
  }

  function And64(a: U64, width: nat): (r: U64)
    requires width <= MAX_WIDTH
    ensures r == And(a, Mask(width)) == Cut(a, width)
  {
    MaskIsAllOnes(width);
    AndMask(a, width);
    LowBound(a, width);
    And(a, Mask(width))
  }

  /** Bytes to read values from at any row. */
  datatype Column = Column(bytes: seq<U8>, width: nat) {
    /** Long enough for `count` values: what the decoder checks. */
    predicate Holds(count: nat) {
      width <= MAX_WIDTH && |bytes| >= Len(count, width)
    }

    /** The value of row `i`, from the eight bytes it starts in and a ninth if
        it does not end there. */
    function Get(i: nat): U64
      requires Holds(i + 1)
    {
      var bit := i * width;
      var at, shift := bit / 8, bit % 8;
      InColumn(i, i + 1, width);
      var value := ShrWord(Word(bytes, at), shift);
      var value := if shift + width > 64 then Or64(value, Shl(bytes[at + 8], 64 - shift)) else value;
      And64(value, width)
    }
  }

  /** `v` is value `i` of the column. */
  predicate ValueAt(c: Column, i: nat, v: U64) {
    c.Holds(i + 1) && v == c.Get(i)
  }

  lemma InColumn(i: nat, count: nat, width: nat)
    requires i < count
    ensures (i * width) / 8 + PAD <= Len(count, width)
    ensures (i * width) % 8 + width > 64 ==> (i * width) / 8 + 8 < Len(count, width)
    ensures Len(i + 1, width) <= Len(count, width)
  {
    MulMono(i + 1, count, width);
    assert (i + 1) * width == i * width + width;
  }

  /** The straddling byte supplies exactly the bits the load could not hold. */
  lemma Straddle(word: U64, byte: U8, shift: nat)
    requires 0 < shift < 8
    ensures Or(Shr(word, shift), Shl(byte, 64 - shift)) == Low(Shr(word + byte * TWO64, shift), 64)
  {
    hide Or, Shr, Low, Pow2;
    var n := 64 - shift;
    var a, p := Shr(word, shift), Pow2(n);
    Pow2Constants();
    Pow2Add(n, shift);
    ShrLow(word, shift);
    if a >= p {
      MulMono(p, a, Pow2(shift));
    }
    var high, low := Shr(byte, shift), Low(byte, shift);
    ShrLow(byte, shift);
    RowBelow(0, low, p, Pow2(shift));
    SplitShift(byte, high, low, Pow2(shift), p);
    ModSplit(byte * p, high, low * p);
    OrDisjoint(a, low, n);
    assert word + byte * TWO64 == (a + byte * p) * Pow2(shift) + Low(word, shift) by {
      assert (a + byte * p) * Pow2(shift) == a * Pow2(shift) + byte * (p * Pow2(shift));
    }
    ShrLowUnique(word + byte * TWO64, shift, a + byte * p, Low(word, shift));
    RowBelow(a, low, p, Pow2(shift));
    ShrLowUnique(a + byte * p, 64, high, a + low * p);
  }

  lemma SplitShift(byte: nat, high: nat, low: nat, s: nat, p: nat)
    requires byte == high * s + low && s * p == TWO64
    ensures byte * p == high * TWO64 + low * p
  {
    assert (high * s) * p == high * (s * p);
  }

  /** A read returns the bits of the column's number at `i * width`, whatever
      the width and wherever they fall in the window. */
  lemma GetExact(c: Column, i: nat, count: nat)
    requires c.Holds(count) && i < count && c.Holds(i + 1)
    ensures c.Get(i) == Low(Shr(FromBytes(c.bytes), i * c.width), c.width)
  {
    hide Or, Shr, Low, Pow2, FromBytes, And, Mask, Shl;
    var bit, w := i * c.width, c.width;
    var at, shift := bit / 8, bit % 8;
    InColumn(i, i + 1, w);
    var x := FromBytes(c.bytes[at..]);
    BytesSplit(c.bytes, at);
    ShrAdd(FromBytes(c.bytes), 8 * at, shift);
    assert 8 * at + shift == bit;
    var t := c.bytes[at..];
    assert c.bytes[at..at + 8] == t[..8];
    BytesSplit(t, 8);
    var word := Word(c.bytes, at);
    if shift + w <= 64 {
      LowOfWindow(x, 64, shift, w);
    } else {
      var byte := c.bytes[at + 8];
      assert t[..9] == t[..8] + [byte];
      BytesSplit(t, 9);
      BytesConcat(t[..8], [byte]);
      OneByte(byte);
      Pow2Constants();
      assert Low(x, 72) == word + byte * TWO64;
      Straddle(word, byte, shift);
      var y := Shr(Low(x, 72), shift);
      LowOfWindow(y, 64, 0, w);
      ShrNone(y);
      ShrNone(Low(y, 64));
      LowOfWindow(x, 72, shift, w);
    }
  }

  lemma OneByte(byte: U8)
    ensures FromBytes([byte]) == byte
  {
  }

  lemma ShrNone(x: nat)
    ensures Shr(x, 0) == x
  {
  }

  /** Packing then reading: every value comes back, at every width. */
  lemma PackedValue(c: Column, values: seq<U64>, i: nat)
    requires c.Holds(|values|) && Fits(values, c.width) && FromBytes(c.bytes) == Stream(values, c.width)
    requires i < |values|
    ensures c.Holds(i + 1) && c.Get(i) == values[i]
  {
    hide Shr, Low, Pow2, FromBytes, Stream;
    InColumn(i, |values|, c.width);
    GetExact(c, i, |values|);
    StreamAt(values, c.width, i);
  }

  /** Packs a whole column through the writer. */
  method Pack(values: seq<U64>, width: nat) returns (c: Column)
    requires width <= MAX_WIDTH && Fits(values, width)
    ensures c.width == width && |c.bytes| == Len(|values|, width)
    ensures forall i: nat :: i < |values| ==> ValueAt(c, i, values[i])
  {
    hide Stream, FromBytes, Low, Pow2, Len;
    var writer := new Writer(width);
    var out: seq<U8> := [];
    assert values[..0] == [];
    for k := 0 to |values|
      invariant fresh(writer) && writer.width == width && writer.Valid(out, values[..k])
    {
      LowSmall(values[k], width);
      assert values[..k + 1] == values[..k] + [Cut(values[k], width)];
      out := writer.Push(out, values[k], values[..k]);
    }
    assert values[..|values|] == values;
    out := writer.Finish(out, values);
    c := Column(out, width);
    forall i: nat | i < |values|
      ensures ValueAt(c, i, values[i])
    {
      PackedValue(c, values, i);
    }
  }

  // ---- decoding a run ----

  /** The first bit of value `i`. */
  function BitAt(i: nat, width: nat): nat {
    i * width
  }

  /** The value at a byte and shift of a slice, masked, before any straddling byte. */
  function Loaded(slice: seq<U8>, bit: nat, width: nat): U64
    requires width <= MAX_WIDTH && bit / 8 + 8 <= |slice|
  {
    And64(ShrWord(Word(slice, bit / 8), bit % 8), width)
  }

  /** The straddling byte's part of the value at `bit`, masked. */
  function Spilled(slice: seq<U8>, bit: nat, width: nat): U64
    requires width <= MAX_WIDTH && bit / 8 + 8 < |slice|
  {
    And64(Shl(slice[bit / 8 + 8], 64 - bit % 8), width)
  }

  /** Where a run's bytes start. */
  function RunStart(first: nat, width: nat): nat {
    first / 8 * width
  }

  /** A run that starts on a byte lies inside the column's bytes. */
  lemma RunInColumn(first: nat, n: nat, count: nat, width: nat)
    requires first % 8 == 0 && first + n <= count
    ensures RunStart(first, width) * 8 == first * width
    ensures RunStart(first, width) + Len(n, width) <= Len(count, width)
  {
    assert RunStart(first, width) * 8 == (first / 8 * 8) * width;
    MulMono(first + n, count, width);
    assert (first + n) * width == first * width + n * width;
  }

  /** A value keeps its shift, and its byte moves by the run's start. */
  lemma RunPosition(first: nat, j: nat, width: nat)
    requires first % 8 == 0
    ensures BitAt(first + j, width) == 8 * RunStart(first, width) + BitAt(j, width)
  {
    assert RunStart(first, width) * 8 == (first / 8 * 8) * width;
    assert (first + j) * width == first * width + j * width;
  }

  lemma BitInColumn(i: nat, count: nat, width: nat)
    requires i < count
    ensures BitAt(i, width) / 8 + PAD <= Len(count, width)
    ensures BitAt(i, width) % 8 + width > 64 ==> BitAt(i, width) / 8 + 8 < Len(count, width)
    ensures Len(i + 1, width) <= Len(count, width)
  {
    InColumn(i, count, width);
  }

  /** Masking each part, then joining, is joining then masking. */
  lemma MaskParts(c: Column, i: nat)
    requires c.Holds(i + 1) && BitAt(i, c.width) / 8 + 8 <= |c.bytes|
    requires BitAt(i, c.width) % 8 + c.width > 64 ==> BitAt(i, c.width) / 8 + 8 < |c.bytes|
    ensures ValueAt(c, i, if BitAt(i, c.width) % 8 + c.width > 64
                          then Or64(Loaded(c.bytes, BitAt(i, c.width), c.width), Spilled(c.bytes, BitAt(i, c.width), c.width))
                          else Loaded(c.bytes, BitAt(i, c.width), c.width))
  {
    hide Or, Shr, Low, Pow2, FromBytes, And, Mask, Shl;
    var bit := BitAt(i, c.width);
    if bit % 8 + c.width > 64 {
      OrLow(ShrWord(Word(c.bytes, bit / 8), bit % 8), Shl(c.bytes[bit / 8 + 8], 64 - bit % 8), c.width);
    }
  }

  lemma SubSlice(bytes: seq<U8>, start: nat, end: nat, i: nat, n: nat)
    requires start <= end <= |bytes| && i + n <= end - start
    ensures bytes[start + i..start + i + n] == bytes[start..end][i..i + n]
  {
    var a, b := bytes[start + i..start + i + n], bytes[start..end][i..i + n];
    forall k | 0 <= k < n
      ensures a[k] == b[k]
    {
    }
    assert a == b;
  }

  lemma WholeBytes(start: nat, bit: nat)
    ensures (8 * start + bit) / 8 == start + bit / 8 && (8 * start + bit) % 8 == bit % 8
  {
  }

  lemma SliceSame(bytes: seq<U8>, start: nat, end: nat, bit: nat, width: nat)
    requires width <= MAX_WIDTH && start <= end <= |bytes| && bit / 8 + 8 <= end - start
    ensures (8 * start + bit) / 8 + 8 <= |bytes|
    ensures Loaded(bytes, 8 * start + bit, width) == Loaded(bytes[start..end], bit, width)
    ensures bit / 8 + 8 < end - start ==> (8 * start + bit) / 8 + 8 < |bytes|
    ensures bit / 8 + 8 < end - start ==>
      Spilled(bytes, 8 * start + bit, width) == Spilled(bytes[start..end], bit, width)
  {
    hide And64, Shl, ShrWord;
    var at, slice := start + bit / 8, bytes[start..end];
    WholeBytes(start, bit);
    SubSlice(bytes, start, end, bit / 8, 8);
  }

  /** Value `first + j` of the column, from the run's own slice. */
  lemma DecodeExact(c: Column, first: nat, n: nat, count: nat, j: nat, slice: seq<U8>)
    requires c.Holds(count) && first % 8 == 0 && first + n <= count && j < n
    requires RunStart(first, c.width) + Len(n, c.width) <= |c.bytes|
    requires slice == c.bytes[RunStart(first, c.width)..RunStart(first, c.width) + Len(n, c.width)]
    ensures Split(c, slice, first + j, BitAt(j, c.width))
  {
    hide And64, Shl, ShrWord, Or64, Loaded, Spilled, ValueAt;
    hide BitAt, RunStart, Len;
    var w := c.width;
    BitInColumn(first + j, count, w);
    BitInColumn(j, n, w);
    RunPosition(first, j, w);
    MaskParts(c, first + j);
    SliceSame(c.bytes, RunStart(first, w), RunStart(first, w) + Len(n, w), BitAt(j, w), w);
  }

  /** The first pass: each value's own load. */
  method LoadRun(slice: seq<U8>, width: nat, out: array<U64>, n: nat)
    requires n <= out.Length && width <= MAX_WIDTH
    requires forall j: nat :: j < n ==> LoadFits(slice, BitAt(j, width))
    modifies out
    ensures forall j: nat :: j < n ==> LoadedAt(slice, BitAt(j, width), width, out[j])
    ensures out[n..] == old(out[n..])
  {
    hide And64, ShrWord, Word, BitAt;
    for j := 0 to n
      invariant forall i: nat :: i < j ==> LoadedAt(slice, BitAt(i, width), width, out[i])
      invariant out[n..] == old(out[n..])
    {
      var bit := BitAt(j, width);
      assert LoadFits(slice, BitAt(j, width));
      out[j] := And64(ShrWord(Word(slice, bit / 8), bit % 8), width);
    }
  }

  predicate LoadFits(slice: seq<U8>, bit: nat) {
    bit / 8 + 8 <= |slice|
  }

  /** The second pass: the values that straddle the window get their last bits. */
  method SpillRun(c: Column, slice: seq<U8>, first: nat, out: array<U64>, n: nat)
    requires n <= out.Length
    requires forall j: nat :: j < n ==> Split(c, slice, first + j, BitAt(j, c.width))
    requires forall j: nat :: j < n ==> LoadedAt(slice, BitAt(j, c.width), c.width, out[j])
    modifies out
    ensures forall j: nat :: j < n ==> ValueAt(c, first + j, out[j])
    ensures out[n..] == old(out[n..])
  {
    hide And64, Shl, Loaded, Or64, ValueAt, Split, LoadedAt, BitAt;
    var width := c.width;
    for j := 0 to n
      invariant forall i: nat :: i < j ==> ValueAt(c, first + i, out[i])
      invariant forall i: nat :: j <= i < n ==> LoadedAt(slice, BitAt(i, c.width), c.width, out[i])
      invariant out[n..] == old(out[n..])
    {
      var bit := BitAt(j, width);
      var shift := bit % 8;
      SplitParts(c, slice, first + j, bit, out[j]);
      if shift + width > 64 {
        out[j] := Or64(out[j], And64(Shl(slice[bit / 8 + 8], 64 - shift), width));
      }
    }
  }

  /** Values `first..first + n` into the front of `out`. Only widths 58 to 63
      need the second pass. */
  method Decode(c: Column, count: nat, first: nat, out: array<U64>, n: nat)
    requires c.Holds(count) && first % 8 == 0 && n <= out.Length && first + n <= count
    modifies out
    ensures forall j: nat :: j < n ==> ValueAt(c, first + j, out[j])
    ensures out[n..] == old(out[n..])
  {
    hide *;
    var width := c.width;
    RunInColumn(first, n, count, width);
    InColumnLen(c, count);
    var slice := c.bytes[RunStart(first, width)..RunStart(first, width) + Len(n, width)];
    forall j: nat | j < n
      ensures Split(c, slice, first + j, BitAt(j, width)) && LoadFits(slice, BitAt(j, width))
    {
      DecodeExact(c, first, n, count, j, slice);
      SplitFits(c, slice, first + j, BitAt(j, width));
    }
    LoadRun(slice, width, out, n);
    if width > 57 {
      SpillRun(c, slice, first, out, n);
    } else {
      forall j: nat | j < n
        ensures ValueAt(c, first + j, out[j])
      {
        SplitParts(c, slice, first + j, BitAt(j, width), out[j]);
      }
    }
  }

  lemma InColumnLen(c: Column, count: nat)
    requires c.Holds(count)
    ensures |c.bytes| >= Len(count, c.width) && c.width <= MAX_WIDTH
  {
  }

  /** What `DecodeExact` says of one value. */
  ghost predicate Split(c: Column, slice: seq<U8>, i: nat, bit: nat) {
    && c.width <= MAX_WIDTH && bit / 8 + 8 <= |slice|
    && if bit % 8 + c.width > 64
       then bit / 8 + 8 < |slice| && ValueAt(c, i, Or64(Loaded(slice, bit, c.width), Spilled(slice, bit, c.width)))
       else ValueAt(c, i, Loaded(slice, bit, c.width))
  }

  lemma SplitFits(c: Column, slice: seq<U8>, i: nat, bit: nat)
    requires Split(c, slice, i, bit)
    ensures LoadFits(slice, bit)
  {
  }

  ghost predicate LoadedAt(slice: seq<U8>, bit: nat, width: nat, v: U64) {
    width <= MAX_WIDTH && bit / 8 + 8 <= |slice| && v == Loaded(slice, bit, width)
  }

  lemma SplitParts(c: Column, slice: seq<U8>, i: nat, bit: nat, v: U64)
    requires Split(c, slice, i, bit) && LoadedAt(slice, bit, c.width, v)
    ensures c.width <= MAX_WIDTH
    ensures if bit % 8 + c.width > 64
      then bit / 8 + 8 < |slice| && ValueAt(c, i, Or64(v, And64(Shl(slice[bit / 8 + 8], 64 - bit % 8), c.width)))
      else ValueAt(c, i, v)
  {
    hide ValueAt, And64, Shl, Or64, Loaded;
  }

  // ---- the pass over a whole column ----

  /** Rows `0..count` in order, decoded `RUN` at a time. */
  class Runs {
    const column: Column
    const count: nat
    var next: nat
    var at: nat
    var len: nat
    const run: array<U64>

    /** The row the next call yields. */
    function Row(): int
      reads this
    {
      next - len + at
    }

    ghost predicate Valid()
      reads this, run
    {
      && column.Holds(count) && run.Length == RUN
      && at <= len <= RUN && len <= next <= count
      && (next == count || next % RUN == 0)
      && forall j: nat :: j < len ==> ValueAt(column, next - len + j, run[j])
    }

    constructor (column: Column, count: nat)
      requires column.Holds(count)
      ensures Valid() && this.column == column && this.count == count && Row() == 0 && fresh(run)
    {
      this.column, this.count := column, count;
      next, at, len := 0, 0, 0;
      run := new U64[RUN](_ => 0);
    }

    method Next() returns (value: Option<U64>)
      requires Valid()
      modifies this, run
      ensures Valid() && 0 <= old(Row()) <= count
      ensures old(Row()) == count ==> value == None && Row() == count
      ensures old(Row()) < count ==>
        value.Some? && ValueAt(column, old(Row()), value.value) && Row() == old(Row()) + 1
    {
      hide ValueAt, Column.Holds;
      if at == len {
        if next == count {
          return None;
        }
        len := if RUN < count - next then RUN else count - next;
        Decode(column, count, next, run, len);
        next := next + len;
        at := 0;
      }
      value := Some(run[at]);
      at := at + 1;
    }

    /** Exactly how many rows are left. */
    function SizeHint(): (left: nat)
      requires Valid()
      reads this, run
      ensures left == count - Row()
    {
      count - next + len - at
    }
  }

  /** A whole pass yields every row once, in order. */
  method Collect(column: Column, count: nat) returns (rows: seq<U64>)
    requires column.Holds(count)
    ensures |rows| == count
    ensures forall i: nat :: i < count ==> ValueAt(column, i, rows[i])
  {
    hide ValueAt, Column.Holds;
    var runs := new Runs(column, count);
    rows := [];
    var value := runs.Next();
    while value.Some?
      invariant fresh(runs) && fresh(runs.run) && runs.Valid() && runs.column == column && runs.count == count
      invariant |rows| + (if value.Some? then 1 else 0) == runs.Row() <= count
      invariant value.None? ==> |rows| == count
      invariant value.Some? ==> ValueAt(column, |rows|, value.value)
      invariant forall i: nat :: i < |rows| ==> ValueAt(column, i, rows[i])
      decreases count - |rows|
    {
      rows := rows + [value.value];
      value := runs.Next();
    }
  }
}
