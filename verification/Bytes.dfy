/** Machine integers and little-endian byte strings. */
module Bytes {
  const U32_LIMIT: nat := 0x1_0000_0000
  const U64_LIMIT: nat := 0x1_0000_0000_0000_0000

  type byte = x: int | 0 <= x < 0x100
  type u16 = x: int | 0 <= x < 0x1_0000
  type u32 = x: int | 0 <= x < 0x1_0000_0000
  type u64 = x: int | 0 <= x < 0x1_0000_0000_0000_0000

  /** The number of values that fit in n bytes. */
  function Capacity(n: nat): (c: nat)
    ensures c > 0
  {
    if n == 0 then 1 else 0x100 * Capacity(n - 1)
  }

  lemma CapacityValues()
    ensures Capacity(1) == 0x100
    ensures Capacity(2) == 0x1_0000
    ensures Capacity(4) == U32_LIMIT
    ensures Capacity(8) == U64_LIMIT
  {
    assert Capacity(2) == 0x1_0000;
    assert Capacity(4) == 0x1_0000 * Capacity(2);
    assert Capacity(6) == 0x1_0000 * Capacity(4);
    assert Capacity(8) == 0x1_0000 * Capacity(6);
  }

  /** The low n bytes of v, least significant first. */
  function Le(v: nat, n: nat): (r: seq<byte>)
    ensures |r| == n
  {
    if n == 0 then [] else [v % 0x100] + Le(v / 0x100, n - 1)
  }

  function UnLe(s: seq<byte>): nat {
    if s == [] then 0 else s[0] + 0x100 * UnLe(s[1..])
  }

  /** The i-th byte is the i-th digit of the number in base 256, lowest first. */
  lemma {:induction false} LeDigits(v: nat, n: nat, i: nat)
    requires i < n
    ensures Le(v, n)[i] == v / Capacity(i) % 0x100
  {
    if i > 0 {
      LeDigits(v / 0x100, n - 1, i - 1);
      DivideTwice(v, Capacity(i - 1));
    }
  }

  lemma DivideTwice(v: nat, c: nat)
    requires c > 0
    ensures v / 0x100 / c == v / (0x100 * c)
  {
    var q := v / 0x100;
    var k := q / c;
    assert c * k <= q < c * k + c;
    assert 0x100 * (c * k) <= v < 0x100 * (c * k) + 0x100 * c;
    assert 0x100 * (c * k) == (0x100 * c) * k;
    QuotientIs(v, 0x100 * c, k);
  }

  lemma QuotientIs(v: nat, d: nat, k: nat)
    requires d > 0 && d * k <= v < d * k + d
    ensures v / d == k
  {
    var q := v / d;
    assert d * q <= v < d * q + d;
    Monotone(d, q + 1, k);
    Monotone(d, k + 1, q);
  }

  lemma Monotone(d: nat, x: nat, y: nat)
    ensures x <= y ==> d * x <= d * y
  {
    if x <= y {
      assert d * y == d * x + d * (y - x);
    }
  }

  lemma {:induction false} UnLeOfLe(v: nat, n: nat)
    requires v < Capacity(n)
    ensures UnLe(Le(v, n)) == v
  {
    if n == 0 {
    } else {
      UnLeOfLe(v / 0x100, n - 1);
      assert Le(v, n)[1..] == Le(v / 0x100, n - 1);
    }
  }

  lemma {:induction false} LeOfUnLe(s: seq<byte>)
    ensures UnLe(s) < Capacity(|s|)
    ensures Le(UnLe(s), |s|) == s
  {
    if s == [] {
    } else {
      LeOfUnLe(s[1..]);
      assert UnLe(s) / 0x100 == UnLe(s[1..]);
      assert UnLe(s) % 0x100 == s[0];
      assert s == [s[0]] + s[1..];
    }
  }

  /** The bytes of a C string literal. */
  function Ascii(s: string): (r: seq<byte>)
    ensures |r| == |s|
  {
    seq(|s|, i requires 0 <= i < |s| => (s[i] as int) % 0x100)
  }
}
