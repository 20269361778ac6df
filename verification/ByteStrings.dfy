/** Byte strings, fixed-width big-endian integers and the byte-wise string order.
    A Go string is its bytes, so ids and names are compared here byte by byte. */
module ByteStrings {

  type Byte = n: int | 0 <= n < 256

  type Bytes = seq<Byte>

  /** A SHA-256 sum: section 6.2 of FIPS 180-4 produces exactly 32 bytes. */
  type Digest = b: Bytes | |b| == 32 witness seq(32, _ => 0)

  /** The hash function is a parameter of every result that needs one. */
  type Sha256 = Bytes -> Digest

  /** The genesis prev_hash sentinel. */
  const ZERO_HASH: Digest :=
    [0, 0, 0, 0, 0, 0, 0, 0, 0, 0, 0, 0, 0, 0, 0, 0,
     0, 0, 0, 0, 0, 0, 0, 0, 0, 0, 0, 0, 0, 0, 0, 0]

  lemma ZeroHashIsZeros()
    ensures |ZERO_HASH| == 32 && forall i :: 0 <= i < 32 ==> ZERO_HASH[i] == 0
  {
  }

  datatype Option<+T> = None | Some(value: T)

  /** The `width` low-order bytes of n, most significant first; a negative n is
      written in two's complement. */
  function BigEndian(n: int, width: nat): (b: Bytes)
    ensures |b| == width
    decreases width
  {
    if width == 0 then [] else BigEndian(n / 256, width - 1) + [n % 256]
  }

  function Pow256(k: nat): (p: int)
    ensures p > 0
  {
    if k == 0 then 1 else 256 * Pow256(k - 1)
  }

  /** Two integers have the same fixed-width image exactly when they are
      congruent modulo 256 to the width. */
  lemma {:induction false} BigEndianSame(a: int, b: int, width: nat)
    ensures BigEndian(a, width) == BigEndian(b, width) <==> (a - b) % Pow256(width) == 0
    decreases width
  {
    if width > 0 {
      var m := Pow256(width - 1);
      var x, y := BigEndian(a / 256, width - 1), BigEndian(b / 256, width - 1);
      BigEndianSame(a / 256, b / 256, width - 1);
      assert BigEndian(a, width)[..width - 1] == x && BigEndian(b, width)[..width - 1] == y;
      assert BigEndian(a, width)[width - 1] == a % 256 && BigEndian(b, width)[width - 1] == b % 256;
      assert BigEndian(a, width) == BigEndian(b, width) <==> x == y && a % 256 == b % 256;
      SplitCongruence(a, b, m);
    }
  }

  /** The number these bytes write out, most significant byte first. */
  function BigEndianValue(b: Bytes): nat
  {
    if b == [] then 0 else b[0] * Pow256(|b| - 1) + BigEndianValue(b[1..])
  }

  lemma {:induction false} BigEndianValueSnoc(b: Bytes, x: Byte)
    ensures BigEndianValue(b + [x]) == 256 * BigEndianValue(b) + x
  {
    if b == [] {
      assert [x][1..] == [];
      assert Pow256(0) == 1;
    } else {
      BigEndianValueSnoc(b[1..], x);
      assert (b + [x])[1..] == b[1..] + [x];
      assert Pow256(|b|) == 256 * Pow256(|b| - 1);
      assert b[0] * Pow256(|b|) == 256 * (b[0] * Pow256(|b| - 1)) by { ScaleOut(b[0], Pow256(|b| - 1)); }
    }
  }

  lemma ScaleOut(x: int, y: int)
    ensures x * (256 * y) == 256 * (x * y)
  {
  }

  /** Reading the fixed-width bytes of a number that fits gives the number back. */
  lemma {:induction false} BigEndianReadsBack(n: nat, width: nat)
    requires n < Pow256(width)
    ensures BigEndianValue(BigEndian(n, width)) == n
    decreases width
  {
    if width > 0 {
      BigEndianReadsBack(n / 256, width - 1);
      BigEndianValueSnoc(BigEndian(n / 256, width - 1), n % 256);
    }
  }

  lemma SplitCongruence(a: int, b: int, m: int)
    requires m > 0
    ensures (a - b) % (256 * m) == 0 <==> (a / 256 - b / 256) % m == 0 && a % 256 == b % 256
  {
    var d := a / 256 - b / 256;
    if d % m == 0 && a % 256 == b % 256 {
      var q := d / m;
      assert a - b == 256 * d == (256 * m) * q;
      MultipleHasNoRemainder(256 * m, q);
    }
    if (a - b) % (256 * m) == 0 {
      var q := (a - b) / (256 * m);
      assert a - b == (256 * m) * q == 256 * (m * q);
      assert a == b + 256 * (m * q);
      assert a % 256 == b % 256 && a / 256 == b / 256 + m * q;
      MultipleHasNoRemainder(m, q);
    }
  }

  lemma MultipleHasNoRemainder(m: int, q: int)
    requires m > 0
    ensures (m * q) % m == 0
  {
    var r := (m * q) % m;
    var d := (m * q) / m;
    assert m * q == m * d + r;
    assert r == m * (q - d);
    NonzeroMultiple(m, q - d);
  }

  /** Below the modulus, congruent means equal. */
  lemma SmallMultiple(d: int, m: int)
    requires -m < d < m && d % m == 0
    ensures d == 0
  {
  }

  lemma NonzeroMultiple(m: int, k: int)
    requires m > 0
    ensures k >= 1 ==> m * k >= m
    ensures k <= -1 ==> m * k <= -m
  {
  }

  /** The order of Go's `<` on strings. */
  predicate StrLess(a: Bytes, b: Bytes)
  {
    b != [] && (a == [] || a[0] < b[0] || (a[0] == b[0] && StrLess(a[1..], b[1..])))
  }

  lemma {:induction false} StrLessIrreflexive(a: Bytes)
    ensures !StrLess(a, a)
  {
    if a != [] {
      StrLessIrreflexive(a[1..]);
    }
  }

  lemma {:induction false} StrLessTotal(a: Bytes, b: Bytes)
    ensures StrLess(a, b) || a == b || StrLess(b, a)
  {
    if a != [] && b != [] && a[0] == b[0] {
      StrLessTotal(a[1..], b[1..]);
      assert a == [a[0]] + a[1..] && b == [b[0]] + b[1..];
    }
  }

  lemma {:induction false} StrLessTransitive(a: Bytes, b: Bytes, c: Bytes)
    requires StrLess(a, b) && StrLess(b, c)
    ensures StrLess(a, c)
  {
    if a != [] && a[0] == b[0] && b[0] == c[0] {
      StrLessTransitive(a[1..], b[1..], c[1..]);
    }
  }

  /** Byte order at the first difference decides, and a proper prefix comes first. */
  lemma {:induction false} StrLessIff(a: Bytes, b: Bytes)
    ensures StrLess(a, b) <==> exists k :: DiffersAt(a, b, k)
  {
    if StrLess(a, b) {
      var k := FirstDifference(a, b);
    }
    if k :| DiffersAt(a, b, k) {
      DifferenceDecides(a, b, k);
    }
  }

  /** a and b agree before k, and there a has ended or has the smaller byte. */
  predicate DiffersAt(a: Bytes, b: Bytes, k: nat)
  {
    k <= |a| && k < |b| && a[..k] == b[..k] && (k == |a| || a[k] < b[k])
  }

  lemma {:induction false} FirstDifference(a: Bytes, b: Bytes) returns (k: nat)
    requires StrLess(a, b)
    ensures DiffersAt(a, b, k)
  {
    if a == [] || a[0] < b[0] {
      k := 0;
    } else {
      k := FirstDifference(a[1..], b[1..]);
      assert a[..k + 1] == [a[0]] + a[1..][..k] && b[..k + 1] == [b[0]] + b[1..][..k];
      k := k + 1;
    }
  }

  lemma {:induction false} DifferenceDecides(a: Bytes, b: Bytes, k: nat)
    requires DiffersAt(a, b, k)
    ensures StrLess(a, b)
  {
    if k > 0 {
      assert a[0] == a[..k][0] && b[0] == b[..k][0];
      assert a[1..][..k - 1] == a[..k][1..] && b[1..][..k - 1] == b[..k][1..];
      DifferenceDecides(a[1..], b[1..], k - 1);
    }
  }

  /** The bytes of an ASCII text. */
  predicate Spells(b: Bytes, s: string)
  {
    |b| == |s| && forall i :: 0 <= i < |s| ==> b[i] == s[i] as int
  }
}
