/** The length field of the stored records: BER definite length in its minimal form
    (ITU-T X.690, sections 8.1.3 and 10.1), one to three octets. */
module Tlv {
  import opened Bytes
  import CMemory

  const MAX_LENGTH: nat := 0xFFFF

  /** Width of the length field; only lengths up to MAX_LENGTH have one that can be written. */
  function LengthWidth(n: nat): (w: nat)
    ensures 1 <= w <= 4
  {
    if n < 0x80 then 1 else if n <= 0xFF then 2 else if n <= MAX_LENGTH then 3 else 4
  }

  function EncodeLength(n: nat): (s: seq<byte>)
    requires n <= MAX_LENGTH
  {
    if n < 0x80 then [n] else if n <= 0xFF then [0x81, n] else [0x82, n / 256, n % 256]
  }

  /** The definite form: one octet below 128, or the number of the octets that follow, from 128 on,
      and the length in as few octets as possible, highest first. */
  lemma LengthForm(n: nat)
    requires n <= MAX_LENGTH
    ensures var s := EncodeLength(n);
      if |s| == 1 then n < 128 && s[0] == n
      else n >= 128 && s[0] == 128 + (|s| - 1) && s[1] != 0 && FromBigEndian(s[1..]) == n
  {
    var s := EncodeLength(n);
    if |s| == 3 {
      assert s[1..][..1] == [s[1]] && [s[1]][..0] == [];
      assert FromBigEndian([s[1]]) == s[1];
    } else if |s| == 2 {
      assert s[1..][..0] == [];
    }
  }

  /** Decodes a length from the three octets read at its position; -1 for other forms. */
  function DecodeLength(s: seq<byte>): (n: int)
    requires |s| == 3
    ensures -1 <= n <= MAX_LENGTH
  {
    if s[0] < 0x80 then s[0] as int
    else if s[0] == 0x81 then s[1] as int
    else if s[0] == 0x82 then (s[1] as int) * 256 + s[2]
    else -1
  }

  /** The walks over a store recompute the width of a length field from the decoded
      value; that is right exactly because the written form is the minimal one. */
  lemma DecodeEncoded(n: nat, rest: seq<byte>)
    requires n <= MAX_LENGTH
    requires |EncodeLength(n) + rest| >= 3
    ensures |EncodeLength(n)| == LengthWidth(n)
    ensures DecodeLength((EncodeLength(n) + rest)[..3]) == n
  {
  }

  /** A length octet string followed by its value. */
  function Lv(v: seq<byte>): (s: seq<byte>)
    requires |v| <= MAX_LENGTH
    ensures |s| == LengthWidth(|v|) + |v|
  {
    DecodeEncoded(|v|, [0, 0, 0]);
    EncodeLength(|v|) + v
  }

  /** Puts the length octets in front of the nLen octets at `offset`, moving these up.
      Returns the length of the whole field, or -1 and an unchanged buffer when the
      length has no three-octet form. */
  method AddLength(data: array<byte>, offset: nat, nLen: nat) returns (code: int, end: nat)
    requires offset + LengthWidth(nLen) + nLen <= data.Length
    modifies data
    ensures code == if nLen <= MAX_LENGTH then LengthWidth(nLen) + nLen else -1
    ensures code >= 0 ==> end == offset + code
    ensures code >= 0 ==> data[offset..end] == Lv(old(data[offset..offset + nLen]))
    ensures code < 0 ==> end == offset && data[..] == old(data[..])
    ensures data[..offset] == old(data[..offset])
    ensures code >= 0 ==> data[end..] == old(data[end..])
  {
    if nLen > MAX_LENGTH {
      return -1, offset;
    }
    var w := LengthWidth(nLen);
    ghost var m := data[..];
    MoveUp(data, offset, nLen, w);
    ghost var moved := data[..];
    DecodeEncoded(nLen, [0, 0, 0]);
    CMemory.Memcpy(data, offset, EncodeLength(nLen));
    code, end := w + nLen, offset + w + nLen;
    Inserted(m, moved, data[..], offset, nLen, EncodeLength(nLen));
  }

  /** memmove: n octets go up by w places. */
  method MoveUp(data: array<byte>, offset: nat, n: nat, w: nat)
    requires offset + w + n <= data.Length
    modifies data
    ensures data[..offset] == old(data[..offset])
    ensures data[offset + w..offset + w + n] == old(data[offset..offset + n])
    ensures data[offset + w + n..] == old(data[offset + w + n..])
  {
    ghost var value := data[offset..offset + n];
    var i := n;
    while i > 0
      invariant 0 <= i <= n
      invariant forall k :: i <= k < n ==> data[offset + w + k] == value[k]
      invariant forall k :: 0 <= k < offset + i ==> data[k] == old(data[k])
      invariant forall k :: offset + w + n <= k < data.Length ==> data[k] == old(data[k])
    {
      i := i - 1;
      assert data[offset + i] == value[i];
      data[offset + w + i] := data[offset + i];
    }
    assert data[offset + w..offset + w + n] == value;
  }

  lemma Inserted(m0: seq<byte>, m1: seq<byte>, m2: seq<byte>, offset: nat, n: nat, octets: seq<byte>)
    requires offset + |octets| + n <= |m0| == |m1|
    requires m1[..offset] == m0[..offset]
    requires m1[offset + |octets|..offset + |octets| + n] == m0[offset..offset + n]
    requires m1[offset + |octets| + n..] == m0[offset + |octets| + n..]
    requires m2 == m1[..offset] + octets + m1[offset + |octets|..]
    ensures m2[..offset] == m0[..offset]
    ensures m2[offset..offset + |octets| + n] == octets + m0[offset..offset + n]
    ensures m2[offset + |octets| + n..] == m0[offset + |octets| + n..]
  {
    var w := |octets|;
    assert m1[offset + w..] == m1[offset + w..offset + w + n] + m1[offset + w + n..];
  }
}
