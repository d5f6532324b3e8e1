/** Unsigned bytes, `u64` values and the little-endian byte order of Rust's
    `u64::to_le_bytes` and `u64::from_le_bytes`. */
module LittleEndian {

  /** A `u8`. */
  type Byte = b: int | 0 <= b < 256

  /** A `u64`. */
  type U64 = x: int | 0 <= x < 0x1_0000_0000_0000_0000

  /** 256 to the power n: how many distinct values n bytes can hold. */
  function Pow256(n: nat): (p: nat)
    ensures p > 0
  {
    if n == 0 then 1 else 256 * Pow256(n - 1)
  }

  /** The number whose little-endian bytes are s: the sum of s[i] * 256^i,
      written in Horner form (least significant byte first). */
  function FromLeBytes(s: seq<Byte>): (v: nat)
    ensures v < Pow256(|s|)
  {
    if s == [] then 0 else s[0] + 256 * FromLeBytes(s[1..])
  }

  /** Eight bytes hold exactly the `u64` range. */
  lemma EightBytesAreU64()
    ensures Pow256(8) == 0x1_0000_0000_0000_0000
  {
  }

  /** The n least significant bytes of v, least significant first. */
  function ToLeBytes(v: nat, n: nat): (s: seq<Byte>)
    ensures |s| == n
  {
    if n == 0 then [] else [v % 256] + ToLeBytes(v / 256, n - 1)
  }

  /** A positive multiple of d is at least d. */
  lemma MulAtLeast(d: nat, k: nat)
    requires k >= 1
    ensures d * k >= d
  {
  }

  /** Euclidean division has one quotient. */
  lemma DivUnique(a: nat, d: nat, q: nat, r: nat)
    requires d > 0 && r < d && a == d * q + r
    ensures a / d == q && a % d == r
  {
    var q', r' := a / d, a % d;
    assert d * q' + r' == d * q + r;
    if q' < q {
      assert d * q == d * q' + d * (q - q');
      MulAtLeast(d, q - q');
    } else if q' > q {
      assert d * q' == d * q + d * (q' - q);
      MulAtLeast(d, q' - q);
    }
  }

  /** Dividing by b and then by c is dividing by b * c. */
  lemma DivDiv(a: nat, b: nat, c: nat)
    requires b > 0 && c > 0
    ensures (a / b) / c == a / (b * c)
  {
    var q, r := a / b, a % b;
    var q2, r2 := q / c, q % c;
    assert a == b * q + r;
    assert q == c * q2 + r2;
    assert b * q == (b * c) * q2 + b * r2 by {
      assert b * q == b * (c * q2) + b * r2;
    }
    assert b * r2 + r < b * c by {
      assert b * c == b * r2 + b * (c - r2);
      MulAtLeast(b, c - r2);
    }
    DivUnique(a, b * c, q2, b * r2 + r);
  }

  /** Byte i of the encoding is digit i of v in base 256. */
  lemma {:induction false} ToLeBytesDigit(v: nat, n: nat, i: nat)
    requires i < n
    ensures ToLeBytes(v, n)[i] == (v / Pow256(i)) % 256
  {
    if i > 0 {
      ToLeBytesDigit(v / 256, n - 1, i - 1);
      DivDiv(v, 256, Pow256(i - 1));
    }
  }

  /** Decoding what was encoded gives back v, provided v fits in n bytes. */
  lemma {:induction false} FromToLeBytes(v: nat, n: nat)
    requires v < Pow256(n)
    ensures FromLeBytes(ToLeBytes(v, n)) == v
  {
    if n > 0 {
      FromToLeBytes(v / 256, n - 1);
      assert ToLeBytes(v, n)[1..] == ToLeBytes(v / 256, n - 1);
    }
  }

  /** Encoding what was decoded gives back the same bytes. */
  lemma {:induction false} ToFromLeBytes(s: seq<Byte>)
    ensures ToLeBytes(FromLeBytes(s), |s|) == s
  {
    if s != [] {
      var v := FromLeBytes(s);
      DivUnique(v, 256, FromLeBytes(s[1..]), s[0]);
      ToFromLeBytes(s[1..]);
    }
  }

  /** Byte i of s carries weight 256^i in the decoded value. */
  lemma FromLeBytesDigits(s: seq<Byte>)
    ensures forall i :: 0 <= i < |s| ==> (FromLeBytes(s) / Pow256(i)) % 256 == s[i]
  {
    forall i | 0 <= i < |s| ensures (FromLeBytes(s) / Pow256(i)) % 256 == s[i] {
      ToFromLeBytes(s);
      ToLeBytesDigit(FromLeBytes(s), |s|, i);
    }
  }
}
