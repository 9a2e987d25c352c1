/** Bytes, exclusive or, and the fixed-width big-endian integers of encoding/binary. */
module Bytes {
  type byte = b: int | 0 <= b < 256

  /** Bitwise exclusive or of the low `n` bits. */
  function XorBits(n: nat, a: nat, b: nat): nat {
    if n == 0 then 0 else 2 * XorBits(n - 1, a / 2, b / 2) + (a + b) % 2
  }

  function Pow2(n: nat): (r: nat)
    ensures r > 0
  {
    if n == 0 then 1 else 2 * Pow2(n - 1)
  }

  lemma BitUndo(half: nat, a: nat, b: nat)
    ensures (2 * half + (a + b) % 2) / 2 == half
    ensures (2 * half + (a + b) % 2 + b) % 2 == a % 2
  {
  }

  lemma {:induction false} XorBitsUndo(n: nat, a: nat, b: nat)
    requires a < Pow2(n)
    ensures XorBits(n, a, b) < Pow2(n) && XorBits(n, XorBits(n, a, b), b) == a
  {
    if n == 0 {
    } else {
      XorBitsUndo(n - 1, a / 2, b / 2);
      var half := XorBits(n - 1, a / 2, b / 2);
      BitUndo(half, a, b);
      var x := 2 * half + (a + b) % 2;
      assert XorBits(n, a, b) == x;
      assert XorBits(n, x, b) == 2 * XorBits(n - 1, half, b / 2) + a % 2;
    }
  }

  lemma EightBits()
    ensures Pow2(8) == 256
  {
    assert Pow2(4) == 16;
    assert Pow2(8) == 16 * Pow2(4);
  }

  function Xor(a: byte, b: byte): byte {
    EightBits();
    XorBitsUndo(8, a, b);
    XorBits(8, a, b)
  }

  lemma XorUndo(a: byte, b: byte)
    ensures Xor(Xor(a, b), b) == a
  {
    EightBits();
    XorBitsUndo(8, a, b);
  }

  lemma LowBit(half: nat, a: nat, b: nat)
    ensures (2 * half + (a + b) % 2) % 2 == 1 <==> a % 2 != b % 2
    ensures (2 * half + (a + b) % 2) / 2 == half
  {
  }

  lemma HigherBit(x: nat, i: nat)
    requires i > 0
    ensures x / Pow2(i) == x / 2 / Pow2(i - 1)
  {
    var m := Pow2(i - 1);
    var q, r := x / 2 / m, x / 2 % m;
    assert x / 2 == q * m + r;
    assert x == q * (2 * m) + (2 * r + x % 2);
    QuotientUnique(x, 2 * m, q, 2 * r + x % 2);
  }

  lemma QuotientUnique(v: nat, m: nat, q: nat, r: nat)
    requires m > 0 && v == q * m + r && r < m
    ensures v / m == q
  {
    var d := v / m - q;
    assert v % m == v - (v / m) * m;
    assert d * m == r - v % m;
  }

  lemma {:induction false} XorBitsBit(n: nat, a: nat, b: nat, i: nat)
    requires i < n
    ensures (XorBits(n, a, b) / Pow2(i)) % 2 == 1 <==> (a / Pow2(i)) % 2 != (b / Pow2(i)) % 2
  {
    var half := XorBits(n - 1, a / 2, b / 2);
    LowBit(half, a, b);
    if i == 0 {
    } else {
      XorBitsBit(n - 1, a / 2, b / 2, i - 1);
      HigherBit(XorBits(n, a, b), i);
      HigherBit(a, i);
      HigherBit(b, i);
    }
  }

  /** Bit by bit: a bit of the result is set exactly where the operands differ. */
  lemma XorBit(a: byte, b: byte, i: nat)
    requires i < 8
    ensures (Xor(a, b) / Pow2(i)) % 2 == 1 <==> (a / Pow2(i)) % 2 != (b / Pow2(i)) % 2
  {
    XorBitsBit(8, a, b, i);
  }

  lemma XorZero(a: byte)
    ensures Xor(a, 0) == a && Xor(0, a) == a && Xor(a, a) == 0
  {
    EightBits();
    XorBitsZero(8, a);
  }

  lemma {:induction false} XorBitsZero(n: nat, a: nat)
    requires a < Pow2(n)
    ensures XorBits(n, a, 0) == a && XorBits(n, 0, a) == a && XorBits(n, a, a) == 0
  {
    if n == 0 {
    } else {
      XorBitsZero(n - 1, a / 2);
    }
  }

  /** 256 to the power `n`. */
  function Span(n: nat): (r: nat)
    ensures r > 0
  {
    if n == 0 then 1 else 256 * Span(n - 1)
  }

  /** The `n` low bytes of `v`, most significant first. */
  function BigEndian(n: nat, v: nat): (s: seq<byte>)
    ensures |s| == n
  {
    if n == 0 then [] else BigEndian(n - 1, v / 256) + [v % 256]
  }

  function Value(s: seq<byte>): nat {
    if s == [] then 0 else 256 * Value(s[..|s| - 1]) + s[|s| - 1]
  }

  /** Reading back gives the value modulo the width. */
  lemma {:induction false} ValueOfBigEndian(n: nat, v: nat)
    ensures Value(BigEndian(n, v)) == v % Span(n)
  {
    if n == 0 {
    } else {
      ValueOfBigEndian(n - 1, v / 256);
      var s := BigEndian(n, v);
      assert s[..n - 1] == BigEndian(n - 1, v / 256);
      ModOfProduct(v, Span(n - 1));
    }
  }

  /** Most significant first: byte `k` counts units of 256 to the power `n - 1 - k`. */
  lemma {:induction false} BigEndianAt(n: nat, v: nat, k: nat)
    requires k < n
    ensures BigEndian(n, v)[k] == v / Span(n - 1 - k) % 256
  {
    if k == n - 1 {
    } else {
      BigEndianAt(n - 1, v / 256, k);
      assert Span(n - 1 - k) == 256 * Span(n - 2 - k);
      QuotientOfProduct(v, Span(n - 2 - k));
    }
  }

  lemma QuotientOfProduct(v: nat, m: nat)
    requires m > 0
    ensures v / (256 * m) == v / 256 / m
  {
    var q, r := v / 256 / m, v / 256 % m;
    assert v / 256 == q * m + r;
    var low := 256 * r + v % 256;
    assert v == q * (256 * m) + low;
    assert 0 <= low < 256 * m;
    QuotientUnique(v, 256 * m, q, low);
  }

  lemma ModOfProduct(v: nat, m: nat)
    requires m > 0
    ensures v % (256 * m) == 256 * ((v / 256) % m) + v % 256
  {
    var q, r := v / 256 / m, v / 256 % m;
    assert v / 256 == q * m + r;
    var low := 256 * r + v % 256;
    assert v == q * (256 * m) + low;
    assert 0 <= low < 256 * m;
    ModUnique(v, 256 * m, q, low);
  }

  lemma ModUnique(v: nat, m: nat, q: nat, r: nat)
    requires m > 0 && v == q * m + r && r < m
    ensures v % m == r
  {
    var d := v / m - q;
    assert v % m == v - (v / m) * m;
    assert d * m == r - v % m;
  }

  /** Writing back what was read gives the same bytes. */
  lemma {:induction false} BigEndianOfValue(s: seq<byte>)
    ensures BigEndian(|s|, Value(s)) == s
    ensures Value(s) < Span(|s|)
  {
    if s == [] {
    } else {
      BigEndianOfValue(s[..|s| - 1]);
    }
  }

  lemma Widths()
    ensures Span(2) == 0x1_0000 && Span(4) == 0x1_0000_0000 && Span(8) == 0x1_0000_0000_0000_0000
  {
    assert Span(1) == 256 && Span(2) == 256 * Span(1);
    assert Span(3) == 256 * Span(2) && Span(4) == 256 * Span(3);
    assert Span(5) == 256 * Span(4) && Span(6) == 256 * Span(5);
    assert Span(7) == 256 * Span(6) && Span(8) == 256 * Span(7);
  }

  /** binary.BigEndian.PutUint16, PutUint32 and PutUint64: overwrites `n` bytes at `at`. */
  method Put(buf: array<byte>, at: nat, n: nat, v: nat)
    requires at + n <= buf.Length
    modifies buf
    ensures buf[at..at + n] == BigEndian(n, v)
    ensures forall k :: 0 <= k < buf.Length && !(at <= k < at + n) ==> buf[k] == old(buf[k])
  {
    var i, rest := n, v;
    while i > 0
      invariant 0 <= i <= n
      invariant BigEndian(n, v) == BigEndian(i, rest) + buf[at + i..at + n]
      invariant forall k :: 0 <= k < buf.Length && !(at <= k < at + n) ==> buf[k] == old(buf[k])
    {
      ghost var done := buf[at + i..at + n];
      i := i - 1;
      buf[at + i] := rest % 256;
      assert buf[at + i..at + n] == [rest % 256] + done;
      rest := rest / 256;
    }
  }
}
