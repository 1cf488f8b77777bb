/** A record payload: the fields of a keypair or a network, each as length and value. */
module Fields {
  import opened Bytes
  import opened Tlv
  import opened Nvram
  import opened RecordChain
  import CMemory

  predicate Short(fs: seq<seq<byte>>) {
    forall i :: 0 <= i < |fs| ==> |fs[i]| <= MAX_LENGTH
  }

  function LvEach(fs: seq<seq<byte>>): (r: seq<seq<byte>>)
    requires Short(fs)
    ensures |r| == |fs|
  {
    seq(|fs|, i requires 0 <= i < |fs| => Lv(fs[i]))
  }

  /** LV LV LV ... */
  function Payload(fs: seq<seq<byte>>): seq<byte>
    requires Short(fs)
  {
    Pack(LvEach(fs))
  }

  /** Whether the record has a three-octet length field, so that it can be stored at all. */
  predicate Storable(fs: seq<seq<byte>>) {
    Short(fs) && |Payload(fs)| <= MAX_LENGTH
  }

  /** L | LV LV LV ... */
  function Record(fs: seq<seq<byte>>): seq<byte>
    requires Storable(fs)
  {
    Lv(Payload(fs))
  }

  /** Where field i of the payload starts. */
  function FieldOffset(fs: seq<seq<byte>>, i: nat): nat
    requires Short(fs) && i <= |fs|
  {
    |Payload(fs[..i])|
  }

  lemma FieldAt(fs: seq<seq<byte>>, i: nat)
    requires Short(fs) && i < |fs|
    ensures FieldOffset(fs, i + 1) == FieldOffset(fs, i) + |Lv(fs[i])| <= |Payload(fs)|
    ensures Payload(fs)[FieldOffset(fs, i)..FieldOffset(fs, i + 1)] == Lv(fs[i])
  {
    var ls := LvEach(fs);
    PackAround(ls, i);
    assert LvEach(fs[..i]) == ls[..i];
    assert LvEach(fs[..i + 1]) == ls[..i + 1];
  }

  /** The region holds the record at `start`. */
  ghost predicate RecordAt(m: seq<byte>, start: nat, fs: seq<seq<byte>>) {
    Storable(fs) && start + |Record(fs)| <= |m| && m[start..start + |Record(fs)|] == Record(fs)
  }

  /** Field i of a record held at `start`, whose payload starts at `body`. */
  lemma FieldInRegion(m: seq<byte>, start: nat, fs: seq<seq<byte>>, i: nat)
    requires RecordAt(m, start, fs) && i < |fs|
    ensures var body := start + LengthWidth(|Payload(fs)|);
      var o := FieldOffset(fs, i);
      && FieldOffset(fs, i + 1) == o + |Lv(fs[i])| <= |Payload(fs)|
      && body + o + |Lv(fs[i])| <= |m|
      && m[body + o..body + o + |Lv(fs[i])|] == Lv(fs[i])
  {
    FieldAt(fs, i);
    DecodeEncoded(|Payload(fs)|, [0, 0, 0]);
    var w := LengthWidth(|Payload(fs)|);
    var o := FieldOffset(fs, i);
    var e := o + |Lv(fs[i])|;
    assert Record(fs)[w + o..w + e] == Payload(fs)[o..e];
    SliceOfSlice(m, start, |Record(fs)|, w + o, w + e);
  }

  /** memcpy of a value followed by the insertion of its length. */
  method PutField(data: array<byte>, offset: nat, value: seq<byte>) returns (code: int, end: nat)
    requires offset + LengthWidth(|value|) + |value| <= data.Length
    modifies data
    ensures code >= SUCCESS <==> |value| <= MAX_LENGTH
    ensures code >= SUCCESS ==> end == offset + |Lv(value)| && data[..end] == old(data[..offset]) + Lv(value)
  {
    ghost var m := data[..];
    CMemory.Memcpy(data, offset, value);
    Copied(m, data[..], offset, value);
    code, end := AddLength(data, offset, |value|);
    if code >= SUCCESS {
      assert data[..end] == data[..offset] + data[offset..end];
    }
  }

  lemma Copied(m0: seq<byte>, m1: seq<byte>, offset: nat, value: seq<byte>)
    requires offset + |value| <= |m0| && m1 == m0[..offset] + value + m0[offset + |value|..]
    ensures m1[..offset] == m0[..offset] && m1[offset..offset + |value|] == value
  {
  }

  /** Operations of one step of a parse. */
  function FieldOps(allocate: bool): nat {
    if allocate then 3 else 2
  }

  /** One step of a parse: reads the length at `offset`, checks it against `want` if that is
      not -1, checks the field against the record length, allocates room for the value if the
      caller wants to (`allocate`), and reads the value. */
  method ReadField(dev: Device, offset: nat, body: nat, recordLen: nat, want: int, allocate: bool, ghost v: seq<byte>)
    returns (code: int, value: seq<byte>, next: nat)
    requires |v| <= MAX_LENGTH && body <= offset
    requires offset + |Lv(v)| <= dev.mem.Length && dev.mem[offset..offset + |Lv(v)|] == Lv(v)
    requires offset - body + |Lv(v)| <= recordLen
    requires want == -1 || want == |v|
    modifies dev`log
    ensures old(dev.log) <= dev.log
    ensures |dev.log| <= |old(dev.log)| + FieldOps(allocate)
    ensures code == SUCCESS ==> |dev.log| == |old(dev.log)| + FieldOps(allocate)
    ensures code == SUCCESS <==> dev.CleanSince(|old(dev.log)|)
    ensures code == SUCCESS ==> value == v && next == offset + |Lv(v)|
    ensures code <= SUCCESS
  {
    value, next := [], offset;
    var lengthBytes;
    code, lengthBytes := dev.Read(offset, 3);
    if code != SUCCESS {
      assert !dev.log[|dev.log| - 1];
      return;
    }
    LengthInRegion(dev.mem[..], offset, v);
    var len := DecodeLength(lengthBytes);
    next := offset + LengthWidth(len);
    if (want != -1 && len != want) || next - body + len > recordLen {
      assert false;
      return ERROR, [], next;
    }
    if allocate {
      var ok := dev.Allocate();
      if !ok {
        assert !dev.log[|dev.log| - 1];
        return ERROR, [], next;
      }
    }
    code, value := dev.Read(next, len);
    next := next + len;
    if code != SUCCESS {
      assert !dev.log[|dev.log| - 1];
    }
  }

  /** Three octets read where a field starts decode to the length of its value. */
  lemma LengthInRegion(m: seq<byte>, offset: nat, v: seq<byte>)
    requires |v| <= MAX_LENGTH && offset + 3 <= |m| && offset + |Lv(v)| <= |m|
    requires m[offset..offset + |Lv(v)|] == Lv(v)
    ensures DecodeLength(m[offset..offset + 3]) == |v|
    ensures |Lv(v)| == LengthWidth(|v|) + |v|
    ensures m[offset + LengthWidth(|v|)..offset + LengthWidth(|v|) + |v|] == v
  {
    var rest := v + m[offset + |Lv(v)|..];
    assert m[offset..] == m[offset..offset + |Lv(v)|] + m[offset + |Lv(v)|..] == EncodeLength(|v|) + rest;
    DecodeEncoded(|v|, rest);
    assert m[offset..offset + 3] == m[offset..][..3];
    var w := LengthWidth(|v|);
    assert m[offset + w..offset + w + |v|] == m[offset..offset + |Lv(v)|][w..];
  }

  /** ReadField on field i of a record held at `start`. */
  method ReadFieldAt(dev: Device, ghost start: nat, body: nat, offset: nat, recordLen: nat, want: int,
                     allocate: bool, ghost fs: seq<seq<byte>>, ghost i: nat)
    returns (code: int, value: seq<byte>, next: nat)
    requires RecordAt(dev.mem[..], start, fs) && i < |fs|
    requires recordLen == |Payload(fs)| && body == start + LengthWidth(recordLen)
    requires offset == body + FieldOffset(fs, i)
    requires want == -1 || want == |fs[i]|
    modifies dev`log
    ensures old(dev.log) <= dev.log && code <= SUCCESS
    ensures |dev.log| <= |old(dev.log)| + FieldOps(allocate)
    ensures code == SUCCESS ==> |dev.log| == |old(dev.log)| + FieldOps(allocate)
    ensures code == SUCCESS <==> dev.CleanSince(|old(dev.log)|)
    ensures code == SUCCESS ==> value == fs[i] && next == body + FieldOffset(fs, i + 1)
  {
    FieldInRegion(dev.mem[..], start, fs, i);
    code, value, next := ReadField(dev, offset, body, recordLen, want, allocate, fs[i]);
  }

  /** Reads the length of the record held at `start`. */
  method ReadRecordLen(dev: Device, start: nat, ghost fs: seq<seq<byte>>) returns (code: int, len: nat)
    requires RecordAt(dev.mem[..], start, fs)
    modifies dev`log
    ensures dev.log == old(dev.log) + [code == SUCCESS] && code <= SUCCESS
    ensures code == SUCCESS ==> len == |Payload(fs)|
    ensures |Record(fs)| == |Payload(fs)| + LengthWidth(|Payload(fs)|)
  {
    len := 0;
    var lengthBytes;
    code, lengthBytes := dev.Read(start, 3);
    if code == SUCCESS {
      LengthInRegion(dev.mem[..], start, Payload(fs));
      assert lengthBytes == dev.mem[..][start..start + 3];
      len := DecodeLength(lengthBytes);
    }
  }
}
