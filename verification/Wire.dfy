/** Bytes and big-endian integers, as the feed encoder writes them and the parser loads them. */
module Wire {

  type Byte = x: int | 0 <= x < 256

  function Pow256(n: nat): (p: nat)
    ensures p > 0
  {
    if n == 0 then 1 else 256 * Pow256(n - 1)
  }

  // v shifted right by i bytes.
  function Shr8(v: nat, i: nat): nat {
    if i == 0 then v else Shr8(v / 256, i - 1)
  }

  // The low n bytes of v, most significant first.
  function BigEndian(v: nat, n: nat): (s: seq<Byte>)
    ensures |s| == n
  {
    if n == 0 then [] else [Shr8(v, n - 1) % 256] + BigEndian(v, n - 1)
  }

  function Value(s: seq<Byte>): nat {
    if s == [] then 0 else s[0] * Pow256(|s| - 1) + Value(s[1..])
  }

  // ---- bytes spelt out -------------------------------------------------------------------------

  function U16(a: Byte, b: Byte): nat {
    a * 256 + b
  }

  function U32(a: Byte, b: Byte, c: Byte, d: Byte): nat {
    U16(a, b) * 65536 + U16(c, d)
  }

  lemma {:induction false} LastByte(s: seq<Byte>)
    requires s != []
    ensures Value(s) == Value(s[..|s| - 1]) * 256 + s[|s| - 1]
  {
    var n := |s| - 1;
    if n > 0 {
      LastByte(s[1..]);
      assert s[1..][..n - 1] == s[..n][1..];
      assert s[..n][0] == s[0] && Pow256(n) == 256 * Pow256(n - 1);
      Distribute256(s[0], Pow256(n - 1), Value(s[1..][..n - 1]));
    }
  }

  lemma Distribute256(d: int, p: int, x: int)
    ensures d * (256 * p) + x * 256 == (d * p + x) * 256
  {
  }

  lemma ValueOf2(s: seq<Byte>)
    requires |s| == 2
    ensures Value(s) == U16(s[0], s[1])
  {
    LastByte(s);
    LastByte(s[..1]);
  }

  // A number of n + 2 bytes, from its first n and its last two.
  lemma LastTwo(s: seq<Byte>)
    requires |s| >= 2
    ensures var n := |s| - 2; Value(s) == Value(s[..n]) * 65536 + U16(s[n], s[n + 1])
  {
    var n := |s| - 2;
    LastByte(s);
    LastByte(s[..n + 1]);
    assert s[..n + 1][..n] == s[..n];
  }

  lemma ValueOf4(s: seq<Byte>)
    requires |s| == 4
    ensures Value(s) == U32(s[0], s[1], s[2], s[3])
  {
    LastTwo(s);
    ValueOf2(s[..2]);
  }

  lemma ValueOf6(s: seq<Byte>)
    requires |s| == 6
    ensures Value(s) == U32(s[0], s[1], s[2], s[3]) * 65536 + U16(s[4], s[5])
  {
    LastTwo(s);
    ValueOf4(s[..4]);
  }

  lemma ValueOf8(s: seq<Byte>)
    requires |s| == 8
    ensures Value(s) == U32(s[0], s[1], s[2], s[3]) * 0x1_0000_0000 + U32(s[4], s[5], s[6], s[7])
  {
    LastTwo(s);
    ValueOf6(s[..6]);
    assert s[..6][..6] == s[..6];
  }

  // ---- writing and loading ---------------------------------------------------------------------

  lemma {:induction false} ShrStep(v: nat, n: nat)
    requires n > 0
    ensures Shr8(v, n) == Shr8(v, n - 1) / 256
  {
    if n > 1 {
      ShrStep(v / 256, n - 1);
    }
  }

  lemma Distribute(p: int, q: int, d: int)
    ensures p * (256 * q + d) == (256 * p) * q + d * p
  {
  }

  lemma AtLeastOnce(p: nat, k: nat)
    requires k > 0
    ensures p * k >= p
  {
    assert p * k == p * (k - 1) + p && p * (k - 1) >= 0;
  }

  lemma DigitStep(p: nat, hi: nat, x: nat, v: nat)
    requires x + p * hi == v
    ensures (hi % 256) * p + x + (256 * p) * (hi / 256) == v
  {
    Distribute(p, hi / 256, hi % 256);
    assert hi == 256 * (hi / 256) + hi % 256;
  }

  // The n low bytes and what is shifted out make up the number.
  lemma {:induction false} Digits(v: nat, n: nat)
    ensures Value(BigEndian(v, n)) + Pow256(n) * Shr8(v, n) == v
  {
    if n > 0 {
      Digits(v, n - 1);
      ShrStep(v, n);
      DigitStep(Pow256(n - 1), Shr8(v, n - 1), Value(BigEndian(v, n - 1)), v);
      assert BigEndian(v, n)[1..] == BigEndian(v, n - 1);
    }
  }

  // Loading what was written gives the number back, if it fits.
  lemma ValueOfBigEndian(v: nat, n: nat)
    requires v < Pow256(n)
    ensures Value(BigEndian(v, n)) == v
  {
    hide Pow256, Shr8, Value;
    Digits(v, n);
    if Shr8(v, n) > 0 {
      AtLeastOnce(Pow256(n), Shr8(v, n));
    }
    assert Pow256(n) * 0 == 0;
  }

  lemma DigitBound(d: Byte, p: nat)
    ensures d * p <= 255 * p
  {
  }

  lemma {:induction false} ValueBound(s: seq<Byte>)
    ensures Value(s) < Pow256(|s|)
  {
    if s != [] {
      ValueBound(s[1..]);
      DigitBound(s[0], Pow256(|s| - 1));
    }
  }

  // Conversely, writing what was loaded gives the bytes back.
  lemma {:induction false} BigEndianOfValue(s: seq<Byte>)
    ensures BigEndian(Value(s), |s|) == s
  {
    SameDigits(BigEndian(Value(s), |s|), s) by {
      ValueBound(s);
      ValueOfBigEndian(Value(s), |s|);
    }
  }

  // Two byte strings of one length and one value are equal.
  lemma {:induction false} SameDigits(s: seq<Byte>, t: seq<Byte>)
    requires |s| == |t| && Value(s) == Value(t)
    ensures s == t
  {
    if s != [] {
      var p := Pow256(|s| - 1);
      ValueBound(s[1..]);
      ValueBound(t[1..]);
      LeadingDigit(s[0], t[0], Value(s[1..]), Value(t[1..]), p);
      SameDigits(s[1..], t[1..]);
      assert s == [s[0]] + s[1..] && t == [t[0]] + t[1..];
    }
  }

  lemma LeadingDigit(a: int, b: int, x: nat, y: nat, p: nat)
    requires x < p && y < p && a * p + x == b * p + y
    ensures a == b && x == y
  {
    assert (b - a) * p == b * p - a * p && (a - b) * p == a * p - b * p;
    if a < b {
      AtLeastOnce(p, b - a);
    } else if b < a {
      AtLeastOnce(p, a - b);
    }
  }

  // ---- the writer's loop -----------------------------------------------------------------------

  // put_be32, put_be48 and put_be64 are this loop for 4, 6 and 8 bytes; put_be16 is its unrolling.
  method PutBigEndian(b: seq<Byte>, v: nat, n: nat) returns (r: seq<Byte>)
    ensures r == b + BigEndian(v, n)
  {
    r := b;
    var i := n;
    while i > 0
      invariant 0 <= i <= n
      invariant b + BigEndian(v, n) == r + BigEndian(v, i)
    {
      i := i - 1;
      r := r + [Shr8(v, i) % 256];
    }
  }

  // ---- the reader's byte swap ----------------------------------------------------------------------

  function Reverse(s: seq<Byte>): (r: seq<Byte>)
    ensures |r| == |s|
  {
    if s == [] then [] else Reverse(s[1..]) + [s[0]]
  }

  // What a little-endian machine loads from these bytes.
  function HostLoad(s: seq<Byte>): nat {
    Value(Reverse(s))
  }

  // Swapping an n-byte word reverses its bytes.
  function Bswap(v: nat, n: nat): nat {
    Value(Reverse(BigEndian(v, n)))
  }

  lemma {:induction false} ReverseAppend(s: seq<Byte>, t: seq<Byte>)
    ensures Reverse(s + t) == Reverse(t) + Reverse(s)
  {
    if s == [] {
      assert s + t == t;
    } else {
      ReverseAppend(s[1..], t);
      assert (s + t)[1..] == s[1..] + t;
    }
  }

  lemma {:induction false} ReverseTwice(s: seq<Byte>)
    ensures Reverse(Reverse(s)) == s
  {
    if s != [] {
      ReverseTwice(s[1..]);
      ReverseAppend(Reverse(s[1..]), [s[0]]);
      assert Reverse([s[0]]) == [s[0]] by { assert [s[0]][1..] == []; }
    }
  }

  // A byte-swapped host load is the big-endian value of the wire bytes.
  lemma SwappedLoad(s: seq<Byte>)
    ensures Bswap(HostLoad(s), |s|) == Value(s)
  {
    BigEndianOfValue(Reverse(s));
    ReverseTwice(s);
  }
}
