/** Remainders and little-endian numbers, used wherever the source wraps or stores a word. */
module Arithmetic {
  import opened Machine

  lemma MulAtLeast(m: int, d: int)
    requires 0 < m
    ensures d >= 1 ==> m * d >= m
    ensures d <= -1 ==> m * d <= -m
  {}

  lemma UniqueMod(x: int, m: nat, q: int, r: nat)
    requires 0 < m && x == m * q + r && r < m
    ensures x % m == r
  {
    assert m * (x / m - q) == r - x % m;
    MulAtLeast(m, x / m - q);
  }

  /** Whole multiples do not change a remainder. */
  lemma ModShift(x: int, m: nat, k: int)
    requires 0 < m
    ensures (x + m * k) % m == x % m
  {
    assert x + m * k == m * (x / m + k) + x % m;
    UniqueMod(x + m * k, m, x / m + k, x % m);
  }

  /** Wrapping the operands first does not change a wrapped result. */
  lemma ModAdd(a: int, b: int, m: nat)
    requires 0 < m
    ensures (a % m + b % m) % m == (a + b) % m
  {
    var x := a % m + b % m;
    assert a + b == x + m * (a / m + b / m);
    ModShift(x, m, a / m + b / m);
  }

  lemma ModSub(a: int, b: int, m: nat)
    requires 0 < m
    ensures (a % m - b % m) % m == (a - b) % m
  {
    var x := a % m - b % m;
    assert a - b == x + m * (a / m - b / m);
    ModShift(x, m, a / m - b / m);
  }

  lemma ModMul(a: int, b: int, m: nat)
    requires 0 < m
    ensures ((a % m) * (b % m)) % m == (a * b) % m
  {
    var (p, q, r, s) := (a / m, a % m, b / m, b % m);
    ProductIs(m, p, q, r, s, a, b);
    ModShift(q * s, m, m * p * r + p * s + q * r);
  }

  lemma ProductIs(m: int, p: int, q: int, r: int, s: int, a: int, b: int)
    requires a == m * p + q && b == m * r + s
    ensures a * b == q * s + m * (m * p * r + p * s + q * r)
  {
    Expand(m, p, q, r, s);
  }

  lemma Expand(m: int, p: int, q: int, r: int, s: int)
    ensures (m * p + q) * (m * r + s) == q * s + m * (m * p * r + p * s + q * r)
  {
    calc {
      (m * p + q) * (m * r + s);
      m * p * (m * r + s) + q * (m * r + s);
      m * p * (m * r) + m * p * s + q * (m * r) + q * s;
      { assert m * p * (m * r) == m * (m * p * r); assert m * p * s == m * (p * s); assert q * (m * r) == m * (q * r); }
      m * (m * p * r) + m * (p * s) + m * (q * r) + q * s;
    }
  }

  /** What a uint32 keeps of a value. */
  function Low32(x: nat): nat {
    x % 0x1_0000_0000
  }

  lemma Low32Exact(x: nat)
    ensures Low32(x) == x <==> x < 0x1_0000_0000
  {}

  /** A running uint32 sum is the wrapped sum. */
  lemma Low32Add(x: nat, y: nat, sum: nat)
    requires sum == x + y
    ensures Low32(Low32(x) + y) == Low32(sum)
  {
    assert sum == Low32(x) + y + 0x1_0000_0000 * (x / 0x1_0000_0000);
    ModShift(Low32(x) + y, 0x1_0000_0000, x / 0x1_0000_0000);
  }

  /** And a uint32 difference of two running sums is the wrapped difference. */
  lemma Low32Sub(x: nat, y: nat, sum: nat)
    requires sum == x + y
    ensures Sub32(Low32(sum), Low32(x)) == Low32(y)
  {
    ModSub(sum, x, 0x1_0000_0000);
    var d := Low32(sum) - Low32(x);
    if d >= 0 {
      UniqueMod(d, 0x1_0000_0000, 0, d);
    } else {
      UniqueMod(d, 0x1_0000_0000, -1, d + 0x1_0000_0000);
    }
  }

  // ---------------------------------------------------------------------------
  // Little-endian words
  // ---------------------------------------------------------------------------

  function Pow256(n: nat): nat {
    if n == 0 then 1 else 256 * Pow256(n - 1)
  }

  /** The low `n` bytes of `v`, least significant first. */
  function ToBytes(v: nat, n: nat): (r: seq<byte>)
    ensures |r| == n
    decreases n
  {
    if n == 0 then [] else [v % 256] + ToBytes(v / 256, n - 1)
  }

  function FromBytes(s: seq<byte>): (v: nat) {
    if s == [] then 0 else s[0] + 256 * FromBytes(s[1..])
  }

  lemma {:induction false} FromBytesBound(s: seq<byte>)
    ensures FromBytes(s) < Pow256(|s|)
  {
    if s != [] {
      FromBytesBound(s[1..]);
    }
  }

  lemma {:induction false} FromBytesConcat(a: seq<byte>, b: seq<byte>)
    ensures FromBytes(a + b) == FromBytes(a) + Pow256(|a|) * FromBytes(b)
    decreases |a|
  {
    if a == [] {
      assert a + b == b;
    } else {
      var all, rest := a + b, a[1..] + b;
      assert all[1..] == rest && all[0] == a[0];
      FromBytesConcat(a[1..], b);
      Scaled(a[0], FromBytes(a[1..]), Pow256(|a| - 1), FromBytes(b), FromBytes(rest));
    }
  }

  lemma {:induction false} Scaled(h: nat, x: nat, p: nat, y: nat, z: nat)
    requires z == x + p * y
    ensures h + 256 * z == (h + 256 * x) + (256 * p) * y
  {
    assert (256 * p) * y == 256 * (p * y);
  }

  /** A value that fits `n` bytes takes zeros beyond them. */
  lemma {:induction false} ToBytesWider(v: nat, n: nat, m: nat)
    requires v < Pow256(n) && n <= m
    ensures ToBytes(v, m) == ToBytes(v, n) + Zeros(m - n)
    decreases m
  {
    if n > 0 {
      ToBytesWider(v / 256, n - 1, m - 1);
    } else if m > 0 {
      ToBytesWider(v, 0, m - 1);
    }
  }

  /** Storing and loading gives the value back, wrapped to the width. */
  lemma {:induction false} ToFromBytes(s: seq<byte>)
    ensures ToBytes(FromBytes(s), |s|) == s
  {
    if s != [] {
      var v, rest := FromBytes(s), FromBytes(s[1..]);
      assert v % 256 == s[0] && v / 256 == rest;
      ToFromBytes(s[1..]);
    }
  }

  lemma {:induction false} FromToBytes(v: nat, n: nat)
    requires v < Pow256(n)
    ensures FromBytes(ToBytes(v, n)) == v
    decreases n
  {
    if n > 0 {
      FromToBytes(v / 256, n - 1);
      assert ToBytes(v, n)[1..] == ToBytes(v / 256, n - 1);
    }
  }
}
