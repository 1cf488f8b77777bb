/** Serialisation of one network record and its parse. The Ethereum, PlatON and Quorum sources
    are the same code with different tags. */
module NetworkRecord {
  import opened Bytes
  import opened Tlv
  import opened Nvram
  import opened RecordChain
  import opened Fields

  datatype Protocol = Ethereum | PlatON | Quorum

  const TAG_LEN: nat := 4
  // protocol tag and index octet in front of the record
  const PREFIX_LEN: nat := 5
  const URL_MAX: nat := 127

  /** The memory image of the BoatProtocolType value. */
  function Tag(p: Protocol): (t: seq<byte>)
    ensures |t| == TAG_LEN
  {
    match p
    case Ethereum => [1, 0, 0, 0]
    case PlatON => [3, 0, 0, 0]
    case Quorum => [9, 0, 0, 0]
  }

  /** Each is the little-endian image of the enumeration value. */
  lemma TagValue(p: Protocol)
    ensures FromLittleEndian(Tag(p)) == match p case Ethereum => 1 case PlatON => 3 case Quorum => 9
  {
    var t := Tag(p);
    assert Reverse(t) == [0, 0, 0, t[0]];
    FourOctets(0, 0, 0, t[0]);
  }

  lemma FourOctets(a: byte, b: byte, c: byte, d: byte)
    ensures FromBigEndian([a, b, c, d]) == ((a * 256 + b) * 256 + c) * 256 + d
  {
    assert [a, b, c, d][..3] == [a, b, c];
    assert [a, b, c][..2] == [a, b];
    assert [a, b][..1] == [a];
    assert FromBigEndian([a]) == a;
    assert FromBigEndian([a, b]) == a * 256 + b;
    assert FromBigEndian([a, b, c]) == (a * 256 + b) * 256 + c;
  }

  lemma TagInjective(p: Protocol, q: Protocol)
    ensures Tag(p) == Tag(q) <==> p == q
  {
    assert Tag(p)[0] == Tag(q)[0] <==> p == q;
  }

  /** chainId is the image of a 32-bit number; the URL is a C string without its zero. */
  datatype Network = Network(protocol: Protocol, index: byte, chainId: seq<byte>, eip155: byte, url: seq<byte>)

  predicate WellFormed(n: Network) {
    |n.chainId| == 4 && n.eip155 <= 1 && 0 !in n.url && |n.url| < URL_MAX
  }

  function FieldsOf(n: Network): seq<seq<byte>> {
    [[n.index], n.chainId, [n.eip155], n.url + [0]]
  }

  lemma Layout(n: Network)
    requires WellFormed(n)
    ensures Storable(FieldsOf(n))
    ensures FieldOffset(FieldsOf(n), 0) == 0
    ensures |Payload(FieldsOf(n))| == 10 + LengthWidth(|n.url| + 1) + |n.url| <= 137
  {
    var fs := FieldsOf(n);
    FieldAt(fs, 0);
    FieldAt(fs, 1);
    FieldAt(fs, 2);
    FieldAt(fs, 3);
    assert fs[..0] == [] && fs[..4] == fs;
  }

  function Entry(n: Network): seq<byte>
    requires WellFormed(n)
  {
    Layout(n);
    Tag(n.protocol) + [n.index] + Record(FieldsOf(n))
  }

  /** The octets of an entry: tag, index, and the record of four length-value fields: the index once
      more, the chain id, the EIP-155 flag, and the URL with a zero at its end. */
  lemma EntryOctets(n: Network)
    requires WellFormed(n)
    ensures var fields := [1, n.index] + ([4] + n.chainId) + [1, n.eip155] + ([|n.url| + 1] + n.url + [0]);
      Storable(FieldsOf(n)) && |fields| <= 137 && Payload(FieldsOf(n)) == fields &&
      Record(FieldsOf(n)) == EncodeLength(|fields|) + fields &&
      Entry(n) == Tag(n.protocol) + [n.index] + (EncodeLength(|fields|) + fields)
  {
    PayloadOctets(n);
  }

  lemma PayloadOctets(n: Network)
    requires WellFormed(n)
    ensures Storable(FieldsOf(n)) && |Payload(FieldsOf(n))| <= 137
    ensures Payload(FieldsOf(n)) == [1, n.index] + ([4] + n.chainId) + [1, n.eip155] + ([|n.url| + 1] + n.url + [0])
  {
    Layout(n);
    FourFields(FieldsOf(n));
    assert Lv([n.index]) == [1, n.index] && Lv([n.eip155]) == [1, n.eip155];
    assert Lv(n.chainId) == [4] + n.chainId;
    LastField(n.url);
  }

  lemma LastField(url: seq<byte>)
    requires |url| < URL_MAX
    ensures Lv(url + [0]) == [|url| + 1] + url + [0]
  {
  }

  predicate AllWellFormed(ns: seq<Network>) {
    forall i :: 0 <= i < |ns| ==> WellFormed(ns[i])
  }

  function Entries(ns: seq<Network>): (es: seq<seq<byte>>)
    requires AllWellFormed(ns)
    ensures |es| == |ns|
  {
    seq(|ns|, i requires 0 <= i < |ns| => Entry(ns[i]))
  }

  ghost predicate HoldsNetworks(m: seq<byte>, ns: seq<Network>) {
    AllWellFormed(ns) && Holds(m, PREFIX_LEN, Entries(ns))
  }

  lemma EntryIsEntry(n: Network)
    requires WellFormed(n)
    ensures IsEntry(PREFIX_LEN, Entry(n))
  {
    Layout(n);
    var p := Payload(FieldsOf(n));
    DecodeEncoded(|p|, p);
    assert Entry(n)[PREFIX_LEN..] == Record(FieldsOf(n)) == EncodeLength(|p|) + p;
    assert Entry(n)[PREFIX_LEN..PREFIX_LEN + 3] == Entry(n)[PREFIX_LEN..][..3];
  }

  method DataLen(n: Network) returns (len: nat)
    requires WellFormed(n)
    ensures Storable(FieldsOf(n)) && len == |Record(FieldsOf(n))|
  {
    len := 1 + LengthWidth(1);
    len := len + (4 + LengthWidth(4));
    len := len + (1 + LengthWidth(1));
    len := len + (|n.url| + 1 + LengthWidth(|n.url| + 1));
    len := len + LengthWidth(len);
    Layout(n);
  }

  /** Builds the record in place, as for keypairs. */
  method Serialize(n: Network, data: array<byte>) returns (code: int, len: nat)
    requires WellFormed(n) && Storable(FieldsOf(n)) && data.Length == |Record(FieldsOf(n))|
    modifies data
    ensures code == SUCCESS && len == data.Length && data[..] == Record(FieldsOf(n))
    ensures var fields := [1, n.index] + ([4] + n.chainId) + [1, n.eip155] + ([|n.url| + 1] + n.url + [0]);
      |fields| <= 137 && data[..] == EncodeLength(|fields|) + fields
  {
    EntryOctets(n);
    var fs := FieldsOf(n);
    Layout(n);
    code, len := PutField(data, 0, fs[0]);
    assert data[..len] == Lv(fs[0]);
    code, len := PutField(data, len, fs[1]);
    code, len := PutField(data, len, fs[2]);
    code, len := PutField(data, len, fs[3]);
    FourFields(fs);
    assert data[..len] == Payload(fs);
    assert data[0..len] == data[..len];
    code, len := AddLength(data, 0, len);
    code := SUCCESS;
    assert data[..] == data[0..len];
  }

  lemma FourFields(fs: seq<seq<byte>>)
    requires Short(fs) && |fs| == 4
    ensures Payload(fs) == Lv(fs[0]) + Lv(fs[1]) + Lv(fs[2]) + Lv(fs[3])
  {
    assert LvEach(fs) == [Lv(fs[0]), Lv(fs[1]), Lv(fs[2]), Lv(fs[3])];
    PackFour(Lv(fs[0]), Lv(fs[1]), Lv(fs[2]), Lv(fs[3]));
  }

  lemma PackFour(a: seq<byte>, b: seq<byte>, c: seq<byte>, d: seq<byte>)
    ensures Pack([a, b, c, d]) == a + b + c + d
  {
    PackOne(d);
    assert [a, b, c, d][1..] == [b, c, d];
    assert [b, c, d][1..] == [c, d];
    assert [c, d][1..] == [d];
    assert Pack([c, d]) == c + d;
    assert Pack([b, c, d]) == b + (c + d) == b + c + d;
  }

  /** Parses the record at `start` into the slot, field by field. */
  method FromNvram(dev: Device, start: nat, slot0: Network, ghost n: Network)
    returns (code: int, slot: Network, outlen: nat)
    requires WellFormed(n) && RecordAt(dev.mem[..], start, FieldsOf(n))
    modifies dev`log
    ensures old(dev.log) < dev.log && code <= SUCCESS
    ensures code == SUCCESS <==> dev.CleanSince(|old(dev.log)|)
    ensures code == SUCCESS ==> slot == n.(protocol := slot0.protocol) && outlen == |Record(FieldsOf(n))|
  {
    ghost var fs := FieldsOf(n);
    slot, outlen := slot0, 0;
    var dataLen;
    code, dataLen := ReadRecordLen(dev, start, fs);
    if code != SUCCESS {
      assert !dev.log[|dev.log| - 1];
      return;
    }
    var body := start + LengthWidth(dataLen);
    assert FieldOffset(fs, 0) == 0 by {
      Layout(n);
    }
    var v, next;
    code, v, next := ReadFieldAt(dev, start, body, body, dataLen, 1, false, fs, 0);
    if code != SUCCESS {
      return;
    }
    code, slot := ReadRest(dev, start, body, next, dataLen, slot.(index := v[0]), n);
    outlen := dataLen + LengthWidth(dataLen);
  }

  /** The three fields behind the index. */
  method ReadRest(dev: Device, ghost start: nat, body: nat, offset: nat, dataLen: nat, slot0: Network, ghost n: Network)
    returns (code: int, slot: Network)
    requires WellFormed(n) && RecordAt(dev.mem[..], start, FieldsOf(n))
    requires dataLen == |Payload(FieldsOf(n))| && body == start + LengthWidth(dataLen)
    requires offset == body + FieldOffset(FieldsOf(n), 1)
    modifies dev`log
    ensures old(dev.log) <= dev.log && code <= SUCCESS
    ensures code == SUCCESS <==> dev.CleanSince(|old(dev.log)|)
    ensures code == SUCCESS ==> slot == n.(protocol := slot0.protocol, index := slot0.index)
  {
    ghost var fs := FieldsOf(n);
    slot := slot0;
    var v, next;
    code, v, next := ReadFieldAt(dev, start, body, offset, dataLen, -1, false, fs, 1);
    if code != SUCCESS {
      return;
    }
    slot := slot.(chainId := v);
    code, v, next := ReadFieldAt(dev, start, body, next, dataLen, -1, false, fs, 2);
    if code != SUCCESS {
      return;
    }
    slot := slot.(eip155 := v[0]);
    code, v, next := ReadFieldAt(dev, start, body, next, dataLen, -1, false, fs, 3);
    if code != SUCCESS {
      return;
    }
    slot := slot.(url := v[..|v| - 1]);
  }
}
