/** memset, memcpy and the in-place reversal of octets. */
module CMemory {
  import opened Bytes

  method Memset(buf: array<byte>, at: nat, n: nat, b: byte)
    requires at + n <= buf.Length
    modifies buf
    ensures buf[..] == old(buf[..at]) + Fill(n, b) + old(buf[at + n..])
  {
    forall k | at <= k < at + n {
      buf[k] := b;
    }
  }

  method Memcpy(buf: array<byte>, at: nat, src: seq<byte>)
    requires at + |src| <= buf.Length
    modifies buf
    ensures buf[..] == old(buf[..at]) + src + old(buf[at + |src|..])
  {
    forall k | at <= k < at + |src| {
      buf[k] := src[k - at];
    }
  }

  /** UtilityChangeEndian: reverses the octets in place. */
  method ChangeEndian(a: array<byte>)
    modifies a
    ensures a[..] == Reverse(old(a[..]))
  {
    var n, i := a.Length, 0;
    while i < n / 2
      invariant 0 <= i <= n / 2
      invariant forall k :: 0 <= k < i ==> a[k] == old(a[n - 1 - k]) && a[n - 1 - k] == old(a[k])
      invariant forall k :: i <= k < n - i ==> a[k] == old(a[k])
    {
      a[i], a[n - 1 - i] := a[n - 1 - i], a[i];
      i := i + 1;
    }
  }

  /** A fresh array with the given contents. */
  method Local(s: seq<byte>) returns (a: array<byte>)
    ensures fresh(a) && a[..] == s
  {
    a := new byte[|s|](i requires 0 <= i < |s| => s[i]);
  }
}
