/** Fixed-width machine words as natural numbers: shifts, masks, exclusive or,
    and little-endian byte strings. Widths and wrap-around are written out. */
module Bits {
  const TWO32: nat := 0x1_0000_0000
  const TWO64: nat := 0x1_0000_0000_0000_0000

  type U8 = x: nat | x < 256
  type U32 = x: nat | x < TWO32
  type U64 = x: nat | x < TWO64

  function Pow2(n: nat): (r: nat)
    ensures r > 0
  {
    if n == 0 then 1 else 2 * Pow2(n - 1)
  }

  /** `a >> n`. */
  function Shr(a: nat, n: nat): nat {
    if n == 0 then a else Shr(a / 2, n - 1)
  }

  /** The low `n` bits of `a`: `a & (2^n - 1)`. */
  function Low(a: nat, n: nat): nat {
    if n == 0 then 0 else 2 * Low(a / 2, n - 1) + a % 2
  }

  /** Bitwise exclusive or. */
  function Xor(a: nat, b: nat): (r: nat)
    decreases a + b
  {
    if a == 0 && b == 0 then 0 else 2 * Xor(a / 2, b / 2) + (a + b) % 2
  }

  // ---- shifts and masks ----

  lemma Doubled(x: nat, p: nat)
    ensures x * (2 * p) == 2 * (x * p) == (2 * x) * p
  {
  }

  lemma {:induction false} ShrLow(a: nat, n: nat)
    ensures a == Shr(a, n) * Pow2(n) + Low(a, n)
    ensures Low(a, n) < Pow2(n)
  {
    if n > 0 {
      ShrLow(a / 2, n - 1);
      Doubled(Shr(a / 2, n - 1), Pow2(n - 1));
    }
  }

  /** A number splits in one way only into a multiple of `2^n` and a rest below it. */
  lemma ShrLowUnique(a: nat, n: nat, q: nat, r: nat)
    requires r < Pow2(n) && a == q * Pow2(n) + r
    ensures Shr(a, n) == q && Low(a, n) == r
  {
    ShrLow(a, n);
    MulUnique(Pow2(n), q, r, Shr(a, n), Low(a, n));
  }

  lemma MulUnique(d: nat, q: nat, r: nat, q': nat, r': nat)
    requires r < d && r' < d && q * d + r == q' * d + r'
    ensures q == q' && r == r'
  {
    if q < q' {
      MulMono(q + 1, q', d);
    } else if q' < q {
      MulMono(q' + 1, q, d);
    }
  }

  lemma MulMono(a: int, b: int, d: nat)
    requires a <= b
    ensures a * d <= b * d
  {
    assert b * d - a * d == (b - a) * d;
  }

  lemma LowSmall(a: nat, n: nat)
    requires a < Pow2(n)
    ensures Shr(a, n) == 0 && Low(a, n) == a
  {
    ShrLowUnique(a, n, 0, a);
  }

  lemma {:induction false} Pow2Add(m: nat, n: nat)
    ensures Pow2(m + n) == Pow2(m) * Pow2(n)
    decreases m
  {
    if m > 0 {
      Pow2Add(m - 1, n);
      Doubled(Pow2(n), Pow2(m - 1));
    }
  }

  lemma Pow2Constants()
    ensures Pow2(8) == 256 && Pow2(32) == TWO32 && Pow2(64) == TWO64
  {
    assert Pow2(4) == 16;
    Pow2Add(4, 4);
    Pow2Add(8, 8);
    Pow2Add(16, 16);
    Pow2Add(32, 32);
  }

  lemma {:induction false} ShrAdd(a: nat, m: nat, n: nat)
    ensures Shr(Shr(a, m), n) == Shr(a, m + n)
    decreases m
  {
    if m > 0 {
      ShrAdd(a / 2, m - 1, n);
    }
  }

  lemma {:induction false} ShrLe(a: nat, n: nat)
    ensures Shr(a, n) <= a
  {
    if n > 0 {
      ShrLe(a / 2, n - 1);
    }
  }

  // ---- exclusive or ----

  lemma {:induction false} XorComm(a: nat, b: nat)
    ensures Xor(a, b) == Xor(b, a)
    decreases a + b
  {
    if a != 0 || b != 0 {
      XorComm(a / 2, b / 2);
    }
  }

  lemma {:induction false} XorZero(a: nat)
    ensures Xor(a, 0) == a && Xor(0, a) == a
  {
    if a != 0 {
      XorZero(a / 2);
    }
  }

  lemma {:induction false} XorSelf(a: nat)
    ensures Xor(a, a) == 0
  {
    if a != 0 {
      XorSelf(a / 2);
    }
  }

  lemma XorStep(a: nat, b: nat)
    ensures Xor(a, b) / 2 == Xor(a / 2, b / 2)
    ensures Xor(a, b) % 2 == (a + b) % 2
  {
  }

  /** A word is its half and its last bit. */
  lemma Rebuild(x: nat, y: nat)
    requires x / 2 == y / 2 && x % 2 == y % 2
    ensures x == y
  {
  }

  lemma {:induction false} XorAssoc(a: nat, b: nat, c: nat)
    ensures Xor(Xor(a, b), c) == Xor(a, Xor(b, c))
    decreases a + b + c
  {
    if a != 0 || b != 0 || c != 0 {
      var x, y := Xor(a, b), Xor(b, c);
      XorAssoc(a / 2, b / 2, c / 2);
      XorStep(a, b);
      XorStep(b, c);
      XorStep(x, c);
      XorStep(a, y);
      Parity(a, b, c, x, y);
      Rebuild(Xor(x, c), Xor(a, y));
    }
  }

  lemma Parity(a: nat, b: nat, c: nat, x: nat, y: nat)
    requires x % 2 == (a + b) % 2 && y % 2 == (b + c) % 2
    ensures (x + c) % 2 == (a + y) % 2
  {
  }

  lemma ParitySum(a: nat, b: nat, x: nat, y: nat)
    requires a % 2 == x % 2 && b % 2 == y % 2
    ensures (a + b) % 2 == (x + y) % 2
  {
  }

  /** Exclusive or works on the bits above and below position `n` separately. */
  lemma {:induction false} XorSplit(a: nat, b: nat, n: nat)
    ensures Shr(Xor(a, b), n) == Xor(Shr(a, n), Shr(b, n))
    ensures Low(Xor(a, b), n) == Xor(Low(a, n), Low(b, n))
    decreases n
  {
    if n > 0 {
      var x := Xor(a, b);
      XorStep(a, b);
      XorSplit(a / 2, b / 2, n - 1);
      var l, m := Low(a, n), Low(b, n);
      assert l / 2 == Low(a / 2, n - 1) && l % 2 == a % 2;
      assert m / 2 == Low(b / 2, n - 1) && m % 2 == b % 2;
      XorStep(l, m);
      ParitySum(a, b, l, m);
      assert Low(x, n) / 2 == Low(x / 2, n - 1) && Low(x, n) % 2 == x % 2;
      Rebuild(Low(x, n), Xor(l, m));
    } else {
      XorZero(0);
    }
  }

  lemma XorBound(a: nat, b: nat, n: nat)
    requires a < Pow2(n) && b < Pow2(n)
    ensures Xor(a, b) < Pow2(n)
  {
    XorSplit(a, b, n);
    LowSmall(a, n);
    LowSmall(b, n);
    XorZero(0);
    ShrLow(Xor(a, b), n);
  }

  /** The exclusive or of two 64-bit words, or of two bytes. */
  function Xor64(a: U64, b: U64): (r: U64)
    ensures r == Xor(a, b)
  {
    Pow2Constants();
    XorBound(a, b, 64);
    Xor(a, b)
  }

  function Xor8(a: U8, b: U8): (r: U8)
    ensures r == Xor(a, b)
  {
    Pow2Constants();
    XorBound(a, b, 8);
    Xor(a, b)
  }

  // ---- or, and ----

  /** Bitwise or, and bitwise and. */
  function Or(a: nat, b: nat): nat
    decreases a + b
  {
    if a == 0 && b == 0 then 0 else 2 * Or(a / 2, b / 2) + (if a % 2 == 1 || b % 2 == 1 then 1 else 0)
  }

  function And(a: nat, b: nat): nat
    decreases a + b
  {
    if a == 0 && b == 0 then 0 else 2 * And(a / 2, b / 2) + (if a % 2 == 1 && b % 2 == 1 then 1 else 0)
  }

  /** Words with no bit in common: or is addition. */
  lemma {:induction false} OrDisjoint(a: nat, b: nat, n: nat)
    requires a < Pow2(n)
    ensures Or(a, b * Pow2(n)) == a + b * Pow2(n)
  {
    if n == 0 {
      OrZero(b);
    } else {
      assert b * Pow2(n) == 2 * (b * Pow2(n - 1));
      OrDisjoint(a / 2, b, n - 1);
    }
  }

  lemma {:induction false} OrZero(b: nat)
    ensures Or(0, b) == b
  {
    if b != 0 {
      OrZero(b / 2);
    }
  }

  lemma {:induction false} OrLow(a: nat, b: nat, n: nat)
    ensures Low(Or(a, b), n) == Or(Low(a, n), Low(b, n))
  {
    if n > 0 {
      OrLow(a / 2, b / 2, n - 1);
    }
  }

  lemma {:induction false} AndMask(a: nat, n: nat)
    ensures And(a, Pow2(n) - 1) == Low(a, n)
  {
    if n == 0 {
      AndZero(a);
    } else {
      AndMask(a / 2, n - 1);
    }
  }

  lemma {:induction false} AndZero(a: nat)
    ensures And(a, 0) == 0
  {
    if a != 0 {
      AndZero(a / 2);
    }
  }

  /** Bits above what is read do not matter. */
  lemma {:induction false} LowOfWindow(x: nat, m: nat, s: nat, w: nat)
    requires s + w <= m
    ensures Low(Shr(Low(x, m), s), w) == Low(Shr(x, s), w)
    decreases s + w
  {
    if s > 0 {
      assert Low(x, m) / 2 == Low(x / 2, m - 1);
      LowOfWindow(x / 2, m - 1, s - 1, w);
    } else if w > 0 {
      assert Low(x, m) / 2 == Low(x / 2, m - 1);
      LowOfWindow(x / 2, m - 1, 0, w - 1);
    }
  }

  // ---- single bits ----

  /** Bit `j` of a number, by division. */
  predicate Bit(x: nat, j: nat) {
    x / Pow2(j) % 2 == 1
  }

  /** Shifting and masking are division and remainder. */
  lemma ShrIsDiv(x: nat, n: nat)
    ensures Shr(x, n) == x / Pow2(n) && Low(x, n) == x % Pow2(n)
  {
    hide Shr, Low, Pow2;
    DivMod(x, Pow2(n));
    ShrLowUnique(x, n, x / Pow2(n), x % Pow2(n));
  }

  lemma DivMod(x: nat, d: nat)
    requires d > 0
    ensures x == x / d * d + x % d && x % d < d
  {
  }

  /** Bits exclude one another: what defines the exclusive or. */
  lemma XorBit(a: nat, b: nat, j: nat)
    ensures Bit(Xor(a, b), j) <==> Bit(a, j) != Bit(b, j)
  {
    hide Pow2, Xor, Shr, Low;
    var x, y := Shr(a, j), Shr(b, j);
    XorSplit(a, b, j);
    XorStep(x, y);
    ShrIsDiv(a, j);
    ShrIsDiv(b, j);
    ShrIsDiv(Xor(a, b), j);
    OddSum(x, y);
  }

  lemma OddSum(x: nat, y: nat)
    ensures (x + y) % 2 == 1 <==> (x % 2 == 1) != (y % 2 == 1)
  {
  }

  lemma ShrBit(x: nat, n: nat, j: nat)
    ensures Bit(Shr(x, n), j) <==> Bit(x, n + j)
  {
    ShrAdd(x, n, j);
    ShrIsDiv(Shr(x, n), j);
    ShrIsDiv(x, n + j);
  }

  lemma LowBit(x: nat, n: nat, j: nat)
    requires j < n
    ensures Bit(Low(x, n), j) <==> Bit(x, j)
  {
    LowOfWindow(x, n, j, 1);
    LowOne(Shr(Low(x, n), j));
    LowOne(Shr(x, j));
    ShrIsDiv(Low(x, n), j);
    ShrIsDiv(x, j);
  }

  lemma LowOne(x: nat)
    ensures Low(x, 1) == x % 2
  {
    assert Low(x, 1) == 2 * Low(x / 2, 0) + x % 2;
  }

  /** Two words that differ from a third by the same bits are equal. */
  lemma XorCancel(c: nat, a: nat, b: nat)
    requires Xor(c, a) == Xor(c, b)
    ensures a == b
  {
    XorAssoc(c, c, a);
    XorAssoc(c, c, b);
    XorSelf(c);
    XorZero(a);
    XorZero(b);
  }

  // ---- little-endian byte strings ----

  /** The number whose little-endian bytes are `s`. */
  function FromBytes(s: seq<U8>): nat {
    if s == [] then 0 else s[0] + 256 * FromBytes(s[1..])
  }

  /** The low `n` bytes of `x`, little-endian. */
  function ToBytes(x: nat, n: nat): (s: seq<U8>)
    ensures |s| == n
  {
    if n == 0 then [] else [x % 256] + ToBytes(x / 256, n - 1)
  }

  lemma {:induction false} ToFromBytes(x: nat, n: nat)
    ensures FromBytes(ToBytes(x, n)) == Low(x, 8 * n)
    decreases n
  {
    if n > 0 {
      var y := x / 256;
      ToFromBytes(y, n - 1);
      assert ToBytes(x, n)[1..] == ToBytes(y, n - 1);
      ShrLow(y, 8 * (n - 1));
      ByteBelow(x, x % 256, y, 8 * (n - 1), Shr(y, 8 * (n - 1)), Low(y, 8 * (n - 1)));
    }
  }

  lemma ByteBelow(x: nat, low: U8, y: nat, m: nat, q: nat, r: nat)
    requires x == low + 256 * y && y == q * Pow2(m) + r && r < Pow2(m)
    ensures Shr(x, 8 + m) == q && Low(x, 8 + m) == low + 256 * r
    ensures x == low + 256 * r + q * Pow2(8 + m)
  {
    hide Shr, Low, Pow2;
    Pow2Add(8, m);
    Pow2Constants();
    Times256(q, Pow2(m));
    ShrLowUnique(x, 8 + m, q, low + 256 * r);
  }

  lemma Times256(q: nat, p: nat)
    ensures q * (256 * p) == 256 * (q * p)
  {
  }

  /** The bytes from `k` on are the number shifted; the bytes before it, its low bits. */
  lemma {:induction false} BytesSplit(s: seq<U8>, k: nat)
    requires k <= |s|
    ensures FromBytes(s[k..]) == Shr(FromBytes(s), 8 * k)
    ensures FromBytes(s[..k]) == Low(FromBytes(s), 8 * k)
    ensures FromBytes(s) == FromBytes(s[..k]) + FromBytes(s[k..]) * Pow2(8 * k)
  {
    if k > 0 {
      var t, m := s[1..], 8 * (k - 1);
      BytesSplit(t, k - 1);
      assert s[k..] == t[k - 1..] && s[..k][1..] == t[..k - 1];
      var x, y := FromBytes(s), FromBytes(t);
      assert x == s[0] + 256 * y;
      assert FromBytes(s[..k]) == s[0] + 256 * FromBytes(t[..k - 1]);
      ShrLow(y, m);
      ByteBelow(x, s[0], y, m, Shr(y, m), Low(y, m));
    } else {
      assert s[0..] == s;
    }
  }

  lemma BytesConcat(a: seq<U8>, b: seq<U8>)
    ensures FromBytes(a + b) == FromBytes(a) + FromBytes(b) * Pow2(8 * |a|)
  {
    BytesSplit(a + b, |a|);
    assert (a + b)[..|a|] == a && (a + b)[|a|..] == b;
  }

  lemma {:induction false} FromToBytes(s: seq<U8>)
    ensures ToBytes(FromBytes(s), |s|) == s
  {
    if s != [] {
      FromToBytes(s[1..]);
      SplitByte(s[0], FromBytes(s[1..]));
      assert s == [s[0]] + s[1..];
    }
  }

  lemma SplitByte(low: U8, rest: nat)
    ensures (low + 256 * rest) % 256 == low && (low + 256 * rest) / 256 == rest
  {
  }

  /** Byte `i` of a little-endian number. */
  lemma FromBytesAt(s: seq<U8>, i: nat)
    requires i < |s|
    ensures FromBytes(s) / Pow2(8 * i) % 256 == s[i]
  {
    hide FromBytes, Pow2, Shr, Low;
    BytesSplit(s, i);
    ShrIsDiv(FromBytes(s), 8 * i);
    LowByte(s[i..]);
  }

  lemma LowByte(s: seq<U8>)
    requires s != []
    ensures FromBytes(s) % 256 == s[0]
  {
    SplitByte(s[0], FromBytes(s[1..]));
  }

  lemma {:induction false} FromBytesBound(s: seq<U8>)
    ensures FromBytes(s) < Pow2(8 * |s|)
  {
    if s != [] {
      FromBytesBound(s[1..]);
      Pow2Add(8, 8 * |s[1..]|);
      Pow2Constants();
    }
  }

  lemma {:induction false} ZeroBytes(n: nat)
    ensures FromBytes(ToBytes(0, n)) == 0
  {
    if n > 0 {
      ZeroBytes(n - 1);
      assert ToBytes(0, n)[1..] == ToBytes(0, n - 1);
    }
  }
}
