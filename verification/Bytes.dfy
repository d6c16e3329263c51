/** Bytes, machine words and their big-endian encodings. */
module Bytes {

  type Byte = x: int | 0 <= x < 256

  const WORD_LIMIT: int := 0x1_0000000000000000_0000000000000000_0000000000000000_0000000000000000

  type Word = x: int | 0 <= x < WORD_LIMIT

  /** A 20-byte address. */
  const ADDRESS_LIMIT: int := 0x1_00000000_0000000000000000_0000000000000000

  type Address = x: int | 0 <= x < ADDRESS_LIMIT

  /** A 4-byte function selector. */
  const SELECTOR_LIMIT: int := 0x1_0000_0000

  type Selector = x: int | 0 <= x < SELECTOR_LIMIT

  function Pow256(n: nat): (p: nat)
    ensures p >= 1
  {
    if n == 0 then 1 else 256 * Pow256(n - 1)
  }

  /** The number whose big-endian bytes are `bs`. */
  function FromBytes(bs: seq<Byte>): (n: nat)
    ensures n < Pow256(|bs|)
  {
    if |bs| == 0 then 0 else FromBytes(bs[..|bs| - 1]) * 256 + bs[|bs| - 1]
  }

  /** The low `width` bytes of `n`, big-endian. */
  function ToBytes(width: nat, n: nat): (bs: seq<Byte>)
    ensures |bs| == width
  {
    if width == 0 then [] else ToBytes(width - 1, n / 256) + [n % 256]
  }

  lemma {:induction false} FromToBytes(width: nat, n: nat)
    requires n < Pow256(width)
    ensures FromBytes(ToBytes(width, n)) == n
  {
    if width > 0 {
      FromToBytes(width - 1, n / 256);
      assert ToBytes(width, n)[..width - 1] == ToBytes(width - 1, n / 256);
    }
  }

  lemma {:induction false} ToFromBytes(bs: seq<Byte>)
    ensures ToBytes(|bs|, FromBytes(bs)) == bs
  {
    if |bs| > 0 {
      ToFromBytes(bs[..|bs| - 1]);
      var high := FromBytes(bs[..|bs| - 1]);
      assert (high * 256 + bs[|bs| - 1]) / 256 == high;
      assert bs == bs[..|bs| - 1] + [bs[|bs| - 1]];
    }
  }

  lemma PowerValues()
    ensures Pow256(4) == SELECTOR_LIMIT
    ensures Pow256(20) == ADDRESS_LIMIT
    ensures Pow256(32) == WORD_LIMIT
  {
    assert Pow256(4) == SELECTOR_LIMIT;
    PowerSum(4, 4);
    PowerSum(8, 8);
    PowerSum(16, 4);
    PowerSum(16, 16);
  }

  lemma {:induction false} PowerSum(a: nat, b: nat)
    ensures Pow256(a + b) == Pow256(a) * Pow256(b)
  {
    if b > 0 {
      PowerSum(a, b - 1);
      Times256(Pow256(a), Pow256(b - 1));
      assert Pow256(b) == 256 * Pow256(b - 1);
      hide Pow256;
    }
  }

  lemma Times256(x: nat, y: nat)
    ensures 256 * (x * y) == x * (256 * y)
  {
  }

  function Zeros(n: nat): (z: seq<Byte>)
    ensures |z| == n
    ensures forall i :: 0 <= i < n ==> z[i] == 0
  {
    seq(n, _ => 0)
  }

  /** Big-endian bytes of a small number in a wider field: leading zeros, then its own bytes. */
  lemma {:induction false} ToBytesWiden(extra: nat, width: nat, n: nat)
    requires n < Pow256(width)
    ensures ToBytes(extra + width, n) == Zeros(extra) + ToBytes(width, n)
  {
    if width == 0 {
      ToBytesZero(extra);
      assert ToBytes(extra, n) == Zeros(extra) + ToBytes(0, n);
    } else {
      ToBytesWiden(extra, width - 1, n / 256);
      assert ToBytes(extra + width, n) == ToBytes(extra + (width - 1), n / 256) + [n % 256];
    }
  }

  /** The last bytes of a number are those of its remainder. */
  lemma {:induction false} LowBytes(high: nat, width: nat, n: nat)
    ensures ToBytes(high + width, n)[high..] == ToBytes(width, n % Pow256(width))
    decreases width
  {
    if width > 0 {
      LowBytes(high, width - 1, n / 256);
      var low := n % Pow256(width);
      DivMod(n, Pow256(width - 1));
      assert ToBytes(high + width, n) == ToBytes(high + (width - 1), n / 256) + [n % 256];
      assert ToBytes(high + width, n)[high..] == ToBytes(high + (width - 1), n / 256)[high..] + [n % 256];
      assert ToBytes(width, low) == ToBytes(width - 1, low / 256) + [low % 256];
    } else {
      assert ToBytes(high + width, n)[high..] == [];
    }
  }

  lemma DivMod(n: nat, p: nat)
    requires p >= 1
    ensures n % (256 * p) % 256 == n % 256
    ensures n % (256 * p) / 256 == n / 256 % p
  {
    var q, r := n / 256 / p, n / 256 % p;
    assert n / 256 == p * q + r;
    assert n == 256 * (p * q + r) + n % 256;
    assert 256 * (p * q + r) == (256 * p) * q + 256 * r;
    RemainderIs(n, 256 * p, q, 256 * r + n % 256);
  }

  lemma RemainderIs(n: nat, m: nat, q: nat, r: nat)
    requires m >= 1 && r < m && n == m * q + r
    ensures n % m == r
  {
    MulGaps(m, n / m, q);
    MulGaps(m, q, n / m);
  }

  lemma {:induction false} MulGaps(m: nat, a: nat, b: nat)
    ensures a < b ==> m * a + m <= m * b
    decreases b
  {
    if a + 1 < b {
      MulGaps(m, a, b - 1);
      assert m * b == m * (b - 1) + m;
    } else if a + 1 == b {
      assert m * b == m * a + m;
    }
  }

  lemma {:induction false} ToBytesZero(width: nat)
    ensures ToBytes(width, 0) == Zeros(width)
  {
    if width > 0 {
      ToBytesZero(width - 1);
    }
  }

  /** Shifting left by whole bytes appends zero bytes. */
  lemma {:induction false} FromBytesShift(bs: seq<Byte>, n: nat)
    ensures FromBytes(bs + Zeros(n)) == FromBytes(bs) * Pow256(n)
  {
    if n == 0 {
      assert bs + Zeros(0) == bs;
    } else {
      FromBytesShift(bs, n - 1);
      assert (bs + Zeros(n))[..|bs| + n - 1] == bs + Zeros(n - 1);
      assert FromBytes(bs + Zeros(n)) == FromBytes(bs + Zeros(n - 1)) * 256;
      MulAssoc(FromBytes(bs), Pow256(n - 1), 256);
    }
  }

  lemma MulAssoc(a: int, b: int, c: int)
    ensures a * b * c == a * (c * b)
  {
  }
}
