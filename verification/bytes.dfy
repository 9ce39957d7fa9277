/**
 Byte buffers and fixed-width unsigned integers, as the frame codec sees them.

 A host integer of `n` octets is laid out in memory least-significant octet
 first (the model assumes a little-endian host), so copying the first `k`
 octets of a `uint64_t` with `memcpy` copies `ToLe(x, 8)[..k]`.
 */
module Bytes {

  type byte = b: int | 0 <= b < 256

  const U16_LIMIT: nat := 0x1_0000
  const U32_LIMIT: nat := 0x1_0000_0000
  const U48_LIMIT: nat := 0x1_0000_0000_0000
  const U64_LIMIT: nat := 0x1_0000_0000_0000_0000

  type u16 = x: int | 0 <= x < U16_LIMIT
  type u32 = x: int | 0 <= x < U32_LIMIT
  type u64 = x: int | 0 <= x < U64_LIMIT

  /** 256 raised to the n-th power: the number of values n octets can hold. */
  function Pow256(n: nat): (r: nat)
    ensures r > 0
  {
    if n == 0 then 1 else 256 * Pow256(n - 1)
  }

  lemma Pow256Widths()
    ensures Pow256(2) == U16_LIMIT && Pow256(4) == U32_LIMIT
    ensures Pow256(6) == U48_LIMIT && Pow256(8) == U64_LIMIT
  {
  }

  /** The slice of a concatenation that covers its middle part is that part. */
  lemma SliceMiddle<T>(a: seq<T>, b: seq<T>, c: seq<T>)
    ensures (a + b + c)[|a|..|a| + |b|] == b
  {
  }

  lemma Slices4<T>(a: seq<T>, b: seq<T>, c: seq<T>, d: seq<T>)
    ensures var s := a + b + c + d;
            && s[..|a|] == a
            && s[|a|..|a| + |b|] == b
            && s[|a| + |b|..|a| + |b| + |c|] == c
            && s[|a| + |b| + |c|..] == d
  {
    var s := a + b + c + d;
    assert s[..|a|] == a;
    assert s[|a|..|a| + |b|] == b;
    assert s[|a| + |b|..|a| + |b| + |c|] == c;
    assert s[|a| + |b| + |c|..] == d;
  }

  lemma Slices6<T>(a: seq<T>, b: seq<T>, c: seq<T>, d: seq<T>, e: seq<T>, f: seq<T>)
    ensures var s := a + b + c + d + e + f;
            && s[..|a|] == a
            && s[|a|..|a| + |b|] == b
            && s[|a| + |b|..|a| + |b| + |c|] == c
            && s[|a| + |b| + |c|..|a| + |b| + |c| + |d|] == d
            && s[|a| + |b| + |c| + |d|..|a| + |b| + |c| + |d| + |e|] == e
  {
    var s := a + b + c + d + e + f;
    assert s[..|a|] == a;
    assert s[|a|..|a| + |b|] == b;
    assert s[|a| + |b|..|a| + |b| + |c|] == c;
    assert s[|a| + |b| + |c|..|a| + |b| + |c| + |d|] == d;
    assert s[|a| + |b| + |c| + |d|..|a| + |b| + |c| + |d| + |e|] == e;
  }

  /** A slice within the second part of a concatenation is a slice of that part. */
  lemma SliceAfter<T>(a: seq<T>, b: seq<T>, i: nat, j: nat)
    requires i <= j <= |b|
    ensures (a + b)[|a| + i..|a| + j] == b[i..j]
  {
    assert (a + b)[|a|..] == b;
    SubSlice(a + b, |a|, |a + b|, i, j);
  }

  /** A slice of a slice is a slice of the whole. */
  lemma SubSlice<T>(s: seq<T>, i: nat, j: nat, k: nat, l: nat)
    requires i <= j <= |s| && k <= l <= j - i
    ensures s[i..j][k..l] == s[i + k..i + l]
  {
    forall x | 0 <= x < l - k
      ensures s[i..j][k..l][x] == s[i + k..i + l][x]
    {
    }
  }

  /** The n low-order octets of x, least significant first. */
  function ToLe(x: nat, n: nat): (r: seq<byte>)
    ensures |r| == n
  {
    if n == 0 then [] else [x % 256] + ToLe(x / 256, n - 1)
  }

  /** The value of an octet sequence read least significant first. */
  function FromLe(s: seq<byte>): (r: nat)
    ensures r < Pow256(|s|)
  {
    if |s| == 0 then 0 else s[0] + 256 * FromLe(s[1..])
  }

  /** The value of an octet sequence read most significant first. */
  function FromBe(s: seq<byte>): nat
  {
    if |s| == 0 then 0 else 256 * FromBe(s[..|s| - 1]) + s[|s| - 1]
  }

  /** Reading most significant first is reading the reversed sequence least significant first. */
  lemma {:induction false} FromBeReverse(s: seq<byte>)
    ensures FromBe(s) == FromLe(Reverse(s))
  {
    if |s| > 0 {
      FromBeReverse(s[..|s| - 1]);
      assert Reverse(s)[1..] == Reverse(s[..|s| - 1]);
    }
  }

  /** n zero octets, as left by `memset(…, 0, n)` or a value-initialised buffer. */
  function Zeros(n: nat): (r: seq<byte>)
    ensures |r| == n
    ensures forall i :: 0 <= i < n ==> r[i] == 0
  {
    seq(n, _ => 0)
  }

  /** `memcpy(buf + at, bytes, |bytes|)`: the buffer with one slice replaced. */
  function Write(buf: seq<byte>, at: nat, bytes: seq<byte>): (r: seq<byte>)
    requires at + |bytes| <= |buf|
    ensures |r| == |buf|
    ensures r[..at] == buf[..at]
    ensures r[at..at + |bytes|] == bytes
    ensures r[at + |bytes|..] == buf[at + |bytes|..]
  {
    buf[..at] + bytes + buf[at + |bytes|..]
  }

  function Reverse<T>(s: seq<T>): (r: seq<T>)
    ensures |r| == |s|
    ensures forall i :: 0 <= i < |s| ==> r[i] == s[|s| - 1 - i]
  {
    if |s| == 0 then [] else Reverse(s[1..]) + [s[0]]
  }

  lemma {:induction false} ReverseReverse<T>(s: seq<T>)
    ensures Reverse(Reverse(s)) == s
  {
    var r := Reverse(Reverse(s));
    assert |r| == |s|;
    forall i | 0 <= i < |s|
      ensures r[i] == s[i]
    {
    }
  }

  /** Decoding the octets of a value that fits gives the value back. */
  lemma {:induction false} FromToLe(x: nat, n: nat)
    requires x < Pow256(n)
    ensures FromLe(ToLe(x, n)) == x
  {
    if n > 0 {
      FromToLe(x / 256, n - 1);
      assert ToLe(x, n)[1..] == ToLe(x / 256, n - 1);
    }
  }

  /** Encoding the value of an octet sequence gives the sequence back. */
  lemma {:induction false} ToFromLe(s: seq<byte>)
    ensures ToLe(FromLe(s), |s|) == s
  {
    if |s| > 0 {
      ToFromLe(s[1..]);
      var v := FromLe(s);
      assert v % 256 == s[0] && v / 256 == FromLe(s[1..]);
      assert ToLe(v, |s|) == [s[0]] + ToLe(FromLe(s[1..]), |s| - 1);
    }
  }

  /** Two values below 256^n with the same n octets are equal. */
  lemma ToLeInjective(x: nat, y: nat, n: nat)
    requires x < Pow256(n) && y < Pow256(n)
    requires ToLe(x, n) == ToLe(y, n)
    ensures x == y
  {
    FromToLe(x, n);
    FromToLe(y, n);
  }

  /** Copying fewer octets of a wider integer copies its low-order octets. */
  lemma {:induction false} ToLePrefix(x: nat, n: nat, k: nat)
    requires k <= n
    ensures ToLe(x, n)[..k] == ToLe(x, k)
  {
    if k > 0 {
      ToLePrefix(x / 256, n - 1, k - 1);
      assert ToLe(x, n)[..k] == [x % 256] + ToLe(x / 256, n - 1)[..k - 1];
    }
  }

  /** Dropping the lowest octet is dividing by 256. */
  lemma FromLeShift(s: seq<byte>)
    requires |s| > 0
    ensures FromLe(s) / 256 == FromLe(s[1..])
  {
  }

  /** The value of an octet sequence fits in its width. */
  lemma FromLeBound(s: seq<byte>, n: nat)
    requires |s| <= n
    ensures FromLe(s) < Pow256(n)
  {
    PowMonotone(|s|, n);
  }

  lemma {:induction false} PowMonotone(a: nat, b: nat)
    requires a <= b
    ensures Pow256(a) <= Pow256(b)
  {
    if a < b {
      PowMonotone(a, b - 1);
    }
  }

  /** Writing one slice leaves every disjoint slice as it was. */
  lemma WriteElsewhere(buf: seq<byte>, at: nat, bytes: seq<byte>, at': nat, bytes': seq<byte>)
    requires at + |bytes| <= |buf| && at' + |bytes'| <= |buf|
    requires at' + |bytes'| <= at || at + |bytes| <= at'
    ensures Write(buf, at, bytes)[at'..at' + |bytes'|] == buf[at'..at' + |bytes'|]
  {
    var r := Write(buf, at, bytes);
    forall i | at' <= i < at' + |bytes'|
      ensures r[i] == buf[i]
    {
      if i < at {
        assert r[i] == r[..at][i];
      } else {
        assert r[i] == r[at + |bytes|..][i - at - |bytes|];
      }
    }
  }
}
