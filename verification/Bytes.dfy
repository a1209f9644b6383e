/** Bytes, bit tests, exclusive or and big-endian numbers, shared by every module. */
module Bytes {

  type byte = x: int | 0 <= x < 256

  type bytes = seq<byte>

  /** `b & mask != 0` for a one-bit mask. */
  predicate HasBit(b: byte, mask: nat)
    requires mask > 0
  {
    b / mask % 2 == 1
  }

  function Zeros(n: nat): (z: bytes)
    ensures |z| == n
    ensures forall i :: 0 <= i < n ==> z[i] == 0
  {
    seq(n, _ => 0)
  }

  /** The concatenation of a list of byte strings. */
  function Flatten(parts: seq<bytes>): bytes {
    if parts == [] then [] else parts[0] + Flatten(parts[1..])
  }

  lemma {:induction false} FlattenAppend(xs: seq<bytes>, ys: seq<bytes>)
    ensures Flatten(xs + ys) == Flatten(xs) + Flatten(ys)
  {
    hide Flatten;
    if xs == [] {
      FlattenNil();
      assert xs + ys == ys && [] + Flatten(ys) == Flatten(ys);
    } else {
      var head, tail := xs[0], xs[1..];
      FlattenAppend(tail, ys);
      FlattenCons(xs);
      FlattenCons(xs + ys);
      assert (xs + ys)[0] == head && (xs + ys)[1..] == tail + ys;
      assert head + (Flatten(tail) + Flatten(ys)) == (head + Flatten(tail)) + Flatten(ys);
    }
  }

  lemma FlattenNil()
    ensures Flatten([]) == []
  {
  }

  lemma FlattenCons(xs: seq<bytes>)
    requires xs != []
    ensures Flatten(xs) == xs[0] + Flatten(xs[1..])
  {
  }

  lemma FlattenOnto(x: bytes, xs: seq<bytes>)
    ensures Flatten([x] + xs) == x + Flatten(xs)
  {
    assert ([x] + xs)[1..] == xs;
  }

  lemma FlattenSnoc(xs: seq<bytes>, y: bytes)
    ensures Flatten(xs + [y]) == Flatten(xs) + y
  {
    FlattenAppend(xs, [y]);
    assert Flatten([y]) == y;
  }

  lemma SliceOfSlice(s: bytes, a: nat, b: nat, c: nat, d: nat)
    requires c <= d && a + d <= b <= |s|
    ensures s[a..b][c..d] == s[a + c..a + d]
  {
    var whole := s[a..b];
    assert |whole[c..d]| == d - c == |s[a + c..a + d]|;
    forall i | 0 <= i < d - c
      ensures whole[c..d][i] == s[a + c..a + d][i]
    {
      assert whole[c..d][i] == whole[c + i] == s[a + c + i];
    }
  }

  lemma SliceOfSuffix(s: bytes, from: nat, a: nat, b: nat)
    requires from <= a <= b <= |s|
    ensures s[from..][a - from..b - from] == s[a..b]
  {
    assert s[from..|s|] == s[from..];
    SliceOfSlice(s, from, |s|, a - from, b - from);
  }

  // ---- Exclusive or, bit by bit ----

  function XorNat(a: nat, b: nat): nat {
    if a == 0 then b
    else if b == 0 then a
    else (a % 2 + b % 2) % 2 + 2 * XorNat(a / 2, b / 2)
  }

  function Pow2(k: nat): (p: nat)
    ensures p > 0
  {
    if k == 0 then 1 else 2 * Pow2(k - 1)
  }

  lemma {:induction false} XorNatBound(a: nat, b: nat, k: nat)
    requires a < Pow2(k) && b < Pow2(k)
    ensures XorNat(a, b) < Pow2(k)
  {
    if a != 0 && b != 0 {
      XorNatBound(a / 2, b / 2, k - 1);
    }
  }

  lemma XorNatBits(a: nat, b: nat)
    ensures XorNat(a, b) % 2 == (a % 2 + b % 2) % 2
    ensures XorNat(a, b) / 2 == XorNat(a / 2, b / 2)
  {
    var bit, half := (a % 2 + b % 2) % 2, XorNat(a / 2, b / 2);
    if a == 0 {
      assert half == b / 2;
    } else if b == 0 {
      assert half == a / 2;
    } else {
      assert (bit + 2 * half) / 2 == half && (bit + 2 * half) % 2 == bit;
    }
  }

  lemma {:induction false} XorNatCancels(a: nat, b: nat)
    ensures XorNat(a, XorNat(a, b)) == b
    decreases a + b
  {
    if a != 0 || b != 0 {
      XorNatCancels(a / 2, b / 2);
      XorNatBits(a, b);
      XorNatBits(a, XorNat(a, b));
    }
  }

  function Xor(a: byte, b: byte): byte {
    XorNatBound(a, b, 8);
    XorNat(a, b)
  }

  /** Byte-wise exclusive or of two blocks of one length. */
  function XorBlock(a: bytes, b: bytes): (x: bytes)
    requires |a| == |b|
    ensures |x| == |a|
  {
    seq(|a|, i requires 0 <= i < |a| => Xor(a[i], b[i]))
  }

  lemma XorBlockCancels(a: bytes, b: bytes)
    requires |a| == |b|
    ensures XorBlock(a, XorBlock(a, b)) == b
  {
    forall i | 0 <= i < |a|
      ensures XorBlock(a, XorBlock(a, b))[i] == b[i]
    {
      XorNatCancels(a[i], b[i]);
    }
  }

  lemma XorBlockZero(b: bytes)
    ensures XorBlock(Zeros(|b|), b) == b
  {
  }

  // ---- Bitwise and ----

  function AndNat(a: nat, b: nat): (r: nat)
    ensures r <= a && r <= b
  {
    if a == 0 || b == 0 then 0
    else (if a % 2 == 1 && b % 2 == 1 then 1 else 0) + 2 * AndNat(a / 2, b / 2)
  }

  /** `a & b`. */
  function And(a: byte, b: byte): byte {
    AndNat(a, b)
  }

  function OrNat(a: nat, b: nat): nat {
    if a == 0 then b
    else if b == 0 then a
    else (if a % 2 == 1 || b % 2 == 1 then 1 else 0) + 2 * OrNat(a / 2, b / 2)
  }

  lemma {:induction false} OrNatBound(a: nat, b: nat, k: nat)
    requires a < Pow2(k) && b < Pow2(k)
    ensures OrNat(a, b) < Pow2(k)
  {
    if a != 0 && b != 0 {
      OrNatBound(a / 2, b / 2, k - 1);
    }
  }

  /** `a | b`. */
  function Or(a: byte, b: byte): byte {
    OrNatBound(a, b, 8);
    OrNat(a, b)
  }

  predicate BitAt(n: nat, k: nat) {
    if k == 0 then n % 2 == 1 else BitAt(n / 2, k - 1)
  }

  lemma AndHalves(a: nat, b: nat)
    ensures AndNat(a, b) / 2 == AndNat(a / 2, b / 2)
    ensures AndNat(a, b) % 2 == 1 <==> a % 2 == 1 && b % 2 == 1
  {
  }

  lemma {:induction false} AndBits(a: nat, b: nat, k: nat)
    ensures BitAt(AndNat(a, b), k) <==> BitAt(a, k) && BitAt(b, k)
  {
    AndHalves(a, b);
    if k > 0 {
      AndBits(a / 2, b / 2, k - 1);
    }
  }

  lemma OrHalves(a: nat, b: nat)
    ensures OrNat(a, b) / 2 == OrNat(a / 2, b / 2)
    ensures OrNat(a, b) % 2 == 1 <==> a % 2 == 1 || b % 2 == 1
  {
    if a == 0 {
      assert OrNat(a / 2, b / 2) == b / 2;
    } else if b == 0 {
      assert OrNat(a / 2, b / 2) == a / 2;
    }
  }

  lemma {:induction false} OrBits(a: nat, b: nat, k: nat)
    ensures BitAt(OrNat(a, b), k) <==> BitAt(a, k) || BitAt(b, k)
  {
    OrHalves(a, b);
    if k > 0 {
      OrBits(a / 2, b / 2, k - 1);
    }
  }

  /** Testing one bit is masking with it. */
  lemma {:induction false} BitIsMask(b: nat, k: nat)
    ensures AndNat(b, Pow2(k)) != 0 <==> b / Pow2(k) % 2 == 1
  {
    AndHalves(b, Pow2(k));
    if k > 0 {
      BitIsMask(b / 2, k - 1);
      assert Pow2(k) / 2 == Pow2(k - 1) && Pow2(k) % 2 == 0;
      DivTwice(b, Pow2(k - 1));
    } else {
      assert AndNat(b / 2, 0) == 0;
    }
  }

  /** Masking with low bits takes the remainder. */
  lemma {:induction false} LowBitsMasked(b: nat, k: nat)
    ensures AndNat(b, Pow2(k) - 1) == b % Pow2(k)
  {
    AndHalves(b, Pow2(k) - 1);
    if k > 0 {
      LowBitsMasked(b / 2, k - 1);
      var p := Pow2(k - 1);
      assert (Pow2(k) - 1) / 2 == p - 1 && (Pow2(k) - 1) % 2 == 1;
      RemainderHalves(b, p);
    }
  }

  lemma RemainderHalves(b: nat, p: nat)
    requires p > 0
    ensures b % (2 * p) == 2 * (b / 2 % p) + b % 2
  {
    DivTwice(b, p);
    var q, r := b / 2 / p, b / 2 % p;
    assert b == 2 * (p * q + r) + b % 2;
    assert b == 2 * p * (b / (2 * p)) + b % (2 * p);
  }

  lemma DivTwice(b: nat, m: nat)
    requires m > 0
    ensures b / (2 * m) == b / 2 / m
  {
    var q, r := b / 2 / m, b / 2 % m;
    var d := b % 2;
    assert b / 2 == m * q + r;
    assert b == 2 * m * q + (2 * r + d) && 2 * r + d < 2 * m;
    QuotientIs(b, 2 * m, q, 2 * r + d);
  }

  lemma QuotientIs(n: nat, m: nat, q: nat, r: nat)
    requires n == m * q + r && r < m
    ensures n / m == q
  {
    MultiplesApart(n / m - q, m);
    assert m * (n / m - q) == r - n % m;
  }

  lemma MultiplesApart(d: int, m: nat)
    ensures d >= 1 ==> m * d >= m
    ensures d <= -1 ==> m * d + m <= 0
  {
  }

  // ---- Big-endian numbers ----

  /** The number a big-endian byte string denotes. */
  function FromBigEndian(s: bytes): nat {
    if s == [] then 0 else 256 * FromBigEndian(s[..|s| - 1]) + s[|s| - 1]
  }

  /** `n` modulo `256^width` as `width` big-endian bytes. */
  function ToBigEndian(n: nat, width: nat): (s: bytes)
    ensures |s| == width
  {
    if width == 0 then [] else ToBigEndian(n / 256, width - 1) + [n % 256]
  }

  function Pow256(k: nat): (p: nat)
    ensures p > 0
  {
    if k == 0 then 1 else 256 * Pow256(k - 1)
  }

  lemma {:induction false} BigEndianRoundTrip(n: nat, width: nat)
    requires n < Pow256(width)
    ensures FromBigEndian(ToBigEndian(n, width)) == n
  {
    if width > 0 {
      BigEndianRoundTrip(n / 256, width - 1);
      var s := ToBigEndian(n, width);
      assert s[..|s| - 1] == ToBigEndian(n / 256, width - 1);
    }
  }

  lemma ToBigEndianInjective(m: nat, n: nat, width: nat)
    requires m < Pow256(width) && n < Pow256(width)
    requires ToBigEndian(m, width) == ToBigEndian(n, width)
    ensures m == n
  {
    BigEndianRoundTrip(m, width);
    BigEndianRoundTrip(n, width);
  }
}
