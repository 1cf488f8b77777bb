/** Octets, big-endian and little-endian numbers. */
module Bytes {

  type byte = x: int | 0 <= x < 256

  /** 256 to the power n. */
  function Pow256(n: nat): (p: nat)
    ensures p >= 1
  {
    if n == 0 then 1 else 256 * Pow256(n - 1)
  }

  function Zeros(n: nat): (s: seq<byte>)
    ensures |s| == n
  {
    Fill(n, 0)
  }

  /** memset: n copies of b. */
  function Fill(n: nat, b: byte): (s: seq<byte>)
    ensures |s| == n
    ensures forall i :: 0 <= i < n ==> s[i] == b
  {
    seq(n, _ => b)
  }

  /** The n-octet big-endian form of v modulo 256^n. */
  function BigEndian(n: nat, v: nat): (s: seq<byte>)
    ensures |s| == n
  {
    if n == 0 then [] else if v == 0 then Zeros(n) else BigEndian(n - 1, v / 256) + [v % 256]
  }

  /** The number a big-endian octet string stands for. */
  function FromBigEndian(s: seq<byte>): nat {
    if s == [] then 0 else FromBigEndian(s[..|s| - 1]) * 256 + s[|s| - 1]
  }

  function Reverse(s: seq<byte>): (r: seq<byte>)
    ensures |r| == |s|
    ensures forall i :: 0 <= i < |s| ==> r[i] == s[|s| - 1 - i]
  {
    seq(|s|, i requires 0 <= i < |s| => s[|s| - 1 - i])
  }

  /** The memory image of an n-octet unsigned integer on a little-endian host. */
  function LittleEndian(n: nat, v: nat): (s: seq<byte>)
    ensures |s| == n
  {
    Reverse(BigEndian(n, v))
  }

  function FromLittleEndian(s: seq<byte>): nat {
    FromBigEndian(Reverse(s))
  }

  lemma ConcatAssoc<T>(x: seq<T>, y: seq<T>, z: seq<T>)
    ensures x + (y + z) == x + y + z
  {
  }

  lemma ReverseTwice(s: seq<byte>)
    ensures Reverse(Reverse(s)) == s
  {
  }

  lemma {:induction false} FromBigEndianBound(s: seq<byte>)
    ensures FromBigEndian(s) < Pow256(|s|)
  {
    if s != [] {
      FromBigEndianBound(s[..|s| - 1]);
    }
  }

  /** The last octet is the lowest one. */
  lemma BigEndianStep(n: nat, v: nat)
    requires n > 0
    ensures BigEndian(n, v) == BigEndian(n - 1, v / 256) + [v % 256]
  {
  }

  lemma {:induction false} FromToBigEndian(n: nat, v: nat)
    requires v < Pow256(n)
    ensures FromBigEndian(BigEndian(n, v)) == v
  {
    if n > 0 {
      FromToBigEndian(n - 1, v / 256);
      BigEndianStep(n, v);
      assert BigEndian(n, v)[..n - 1] == BigEndian(n - 1, v / 256);
    }
  }

  lemma {:induction false} ToFromBigEndian(s: seq<byte>)
    ensures BigEndian(|s|, FromBigEndian(s)) == s
  {
    if s != [] {
      ToFromBigEndian(s[..|s| - 1]);
      BigEndianStep(|s|, FromBigEndian(s));
      assert s == s[..|s| - 1] + [s[|s| - 1]];
    }
  }

  /** A big-endian number splits into its high and its low octets. */
  lemma {:induction false} BigEndianSplit(m: nat, n: nat, high: nat, low: nat)
    requires low < Pow256(n)
    ensures BigEndian(m + n, high * Pow256(n) + low) == BigEndian(m, high) + BigEndian(n, low)
  {
    if n > 0 {
      var q := high * Pow256(n - 1);
      assert high * Pow256(n) == 256 * q;
      BigEndianSplit(m, n - 1, high, low / 256);
      BigEndianStep(m + n, 256 * q + low);
      BigEndianStep(n, low);
      assert (256 * q + low) / 256 == q + low / 256;
      assert (256 * q + low) % 256 == low % 256;
      assert BigEndian(m, high) + (BigEndian(n - 1, low / 256) + [low % 256])
          == BigEndian(m, high) + BigEndian(n - 1, low / 256) + [low % 256];
    }
  }

  lemma {:induction false} BigEndianZero(n: nat)
    ensures BigEndian(n, 0) == Zeros(n)
  {
    if n > 0 {
      BigEndianZero(n - 1);
      BigEndianStep(n, 0);
    }
  }

  lemma {:induction false} BigEndianAllOnes(n: nat)
    ensures BigEndian(n, Pow256(n) - 1) == Fill(n, 255)
  {
    if n > 0 {
      BigEndianAllOnes(n - 1);
      BigEndianStep(n, Pow256(n) - 1);
      assert (Pow256(n) - 1) / 256 == Pow256(n - 1) - 1;
    }
  }

  lemma {:induction false} Pow256Add(m: nat, n: nat)
    ensures Pow256(m + n) == Pow256(m) * Pow256(n)
  {
    if m > 0 {
      Pow256Add(m - 1, n);
    }
  }

  /** A number below 256^4 occupies the last four octets of a 32-octet word. */
  lemma ShortWord(v: nat)
    requires v < Pow256(4)
    ensures BigEndian(32, v) == Zeros(28) + BigEndian(4, v)
  {
    BigEndianSplit(28, 4, 0, v);
    BigEndianZero(28);
  }

  lemma SliceOfSlice(m: seq<byte>, start: nat, len: nat, from: nat, to: nat)
    requires start + len <= |m| && from <= to <= len
    ensures m[start + from..start + to] == m[start..start + len][from..to]
  {
    var a, b := m[start + from..start + to], m[start..start + len][from..to];
    assert |a| == |b|;
    forall k | 0 <= k < |a| ensures a[k] == b[k] {
      assert a[k] == m[start + from + k];
      assert b[k] == m[start..start + len][from + k] == m[start + (from + k)];
    }
  }

  /** What lies at position h of a region is found in its slices. */
  lemma Located(m: seq<byte>, h: nat, a: seq<byte>, e: seq<byte>, t: seq<byte>)
    requires h <= |m| && a + e + t <= m[h..]
    ensures h + |a| + |e| + |t| <= |m|
    ensures m[h..h + |a|] == a
    ensures m[h + |a|..h + |a| + |e|] == e
    ensures m[h + |a| + |e|..h + |a| + |e| + |t|] == t
  {
    var p := a + e + t;
    assert |m[h..]| == |m| - h && m[h..][..|p|] == p;
    forall k | 0 <= k < |p| ensures m[h + k] == p[k] {
      assert m[h..][k] == m[h + k] && m[h..][..|p|][k] == m[h..][k];
    }
    forall k | 0 <= k < |e| ensures m[h + |a| + k] == e[k] {
      assert m[h + (|a| + k)] == p[|a| + k] == e[k];
    }
    forall k | 0 <= k < |t| ensures m[h + |a| + |e| + k] == t[k] {
      assert m[h + (|a| + |e| + k)] == p[|a| + |e| + k] == t[k];
    }
    forall k | 0 <= k < |a| ensures m[h + k] == a[k] {
      assert m[h + k] == p[k] == a[k];
    }
  }

  /** A region cut at three places. */
  lemma Cut(m: seq<byte>, i: nat, j: nat, k: nat, l: nat)
    requires i <= j <= k <= l <= |m|
    ensures m == m[..i] + m[i..j] + (m[j..k] + m[k..l] + m[l..])
  {
    assert m == m[..j] + m[j..];
    assert m[..j] == m[..i] + m[i..j];
    assert m[j..] == m[j..k] + m[k..];
    assert m[k..] == m[k..l] + m[l..];
    assert m[j..] == m[j..k] + m[k..l] + m[l..];
  }

  /** The pieces of a region that holds `a + e + t` from `h` on. */
  lemma Pieces(m: seq<byte>, h: nat, a: seq<byte>, e: seq<byte>, t: seq<byte>, end: nat)
    requires h <= |m| && a + e + t <= m[h..] && end == h + |a| + |e| + |t|
    ensures h + |a| + |e| <= end <= |m|
    ensures m[h + |a| + |e|..end] == t
    ensures m == m[..h] + a + (e + t + m[end..])
  {
    Located(m, h, a, e, t);
    Cut(m, h, h + |a|, h + |a| + |e|, end);
  }
}
