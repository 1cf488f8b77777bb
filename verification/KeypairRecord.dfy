/** Serialisation of one keypair record and its parse. */
module KeypairRecord {
  import opened Bytes
  import opened Tlv
  import opened Nvram
  import opened RecordChain
  import opened Fields

  /** The name is the C string without its terminating zero; format and type are 32-bit enums,
      given by their memory images. */
  datatype Keypair = Keypair(index: byte, name: seq<byte>, format: seq<byte>, ktype: seq<byte>, pubkey: seq<byte>)

  const ENUM_LEN: nat := 4
  const PUBKEY_LEN: nat := 64

  predicate WellFormed(k: Keypair) {
    0 !in k.name && |k.format| == ENUM_LEN && |k.ktype| == ENUM_LEN && |k.pubkey| == PUBKEY_LEN
  }

  function FieldsOf(k: Keypair): seq<seq<byte>> {
    [[k.index], k.name, k.format, k.ktype, k.pubkey]
  }

  /** A well-formed keypair whose record has a three-octet length. */
  predicate Fits(k: Keypair) {
    WellFormed(k) && Storable(FieldsOf(k))
  }

  function Entry(k: Keypair): seq<byte>
    requires Fits(k)
  {
    Record(FieldsOf(k))
  }

  predicate AllFit(ks: seq<Keypair>) {
    forall i :: 0 <= i < |ks| ==> Fits(ks[i])
  }

  function Entries(ks: seq<Keypair>): (es: seq<seq<byte>>)
    requires AllFit(ks)
    ensures |es| == |ks|
  {
    seq(|ks|, i requires 0 <= i < |ks| => Entry(ks[i]))
  }

  /** The region holds exactly the keypairs `ks`, in this order. */
  ghost predicate HoldsKeypairs(m: seq<byte>, ks: seq<Keypair>) {
    AllFit(ks) && Holds(m, 0, Entries(ks))
  }

  /** The lengths of the five fields, and where each starts in the payload. */
  lemma Layout(k: Keypair)
    requires WellFormed(k) && Short(FieldsOf(k))
    ensures |k.name| <= MAX_LENGTH
    ensures FieldOffset(FieldsOf(k), 1) == 2
    ensures FieldOffset(FieldsOf(k), 2) == 2 + |Lv(k.name)|
    ensures FieldOffset(FieldsOf(k), 3) == 7 + |Lv(k.name)|
    ensures FieldOffset(FieldsOf(k), 4) == 12 + |Lv(k.name)|
    ensures |Payload(FieldsOf(k))| == 77 + |Lv(k.name)|
  {
    var fs := FieldsOf(k);
    assert fs[1] == k.name;
    FieldAt(fs, 0);
    FieldAt(fs, 1);
    FieldAt(fs, 2);
    FieldAt(fs, 3);
    FieldAt(fs, 4);
    assert fs[..0] == [] && fs[..5] == fs;
  }

  /** A keypair is storable exactly when its name is no longer than this. */
  lemma StorableNames(k: Keypair)
    requires WellFormed(k)
    ensures Fits(k) <==> |k.name| <= 65455
  {
    if |k.name| <= MAX_LENGTH {
      Layout(k);
    } else {
      assert FieldsOf(k)[1] == k.name;
    }
  }

  lemma EntryIsEntry(k: Keypair)
    requires Fits(k)
    ensures IsEntry(0, Entry(k))
  {
    Layout(k);
    DecodeEncoded(|Payload(FieldsOf(k))|, Payload(FieldsOf(k)));
  }

  method DataLen(k: Keypair) returns (len: nat)
    requires WellFormed(k)
    ensures |k.name| <= MAX_LENGTH ==>
      Short(FieldsOf(k)) && len == |Payload(FieldsOf(k))| + LengthWidth(|Payload(FieldsOf(k))|)
    ensures var p := 77 + LengthWidth(|k.name|) + |k.name|; len == p + LengthWidth(p)
    ensures Fits(k) ==> len == |Entry(k)|
  {
    len := 1 + LengthWidth(1);
    len := len + (|k.name| + LengthWidth(|k.name|));
    len := len + (ENUM_LEN + LengthWidth(ENUM_LEN));
    len := len + (ENUM_LEN + LengthWidth(ENUM_LEN));
    len := len + (PUBKEY_LEN + LengthWidth(PUBKEY_LEN));
    len := len + LengthWidth(len);
    if |k.name| <= MAX_LENGTH {
      Layout(k);
    } else {
      assert FieldsOf(k)[1] == k.name;
    }
  }

  /** Builds the record in place: every value is copied and its length pushed in front of
      it, and at the end the record length in front of everything. */
  method Serialize(k: Keypair, data: array<byte>) returns (code: int, len: nat)
    requires WellFormed(k)
    requires var p := 77 + LengthWidth(|k.name|) + |k.name|; data.Length == p + LengthWidth(p)
    modifies data
    ensures code == if Fits(k) then SUCCESS else ERROR
    ensures code == SUCCESS ==> len == data.Length && data[..] == Entry(k)
  {
    var fs := FieldsOf(k);
    StorableNames(k);
    code, len := PutField(data, 0, [k.index]);
    code, len := PutField(data, len, k.name);
    if code < SUCCESS {
      return ERROR, 0;
    }
    Layout(k);
    assert data[..len] == Lv([k.index]) + Lv(k.name);
    len := PutMaterial(k, data, len);
    assert data[..len] == Payload(fs) by {
      PayloadOf(k);
    }
    assert data[0..len] == data[..len];
    code, len := AddLength(data, 0, len);
    if code < SUCCESS {
      return ERROR, 0;
    }
    code := SUCCESS;
    assert data[..] == data[0..len];
  }

  lemma PayloadOf(k: Keypair)
    requires WellFormed(k) && |k.name| <= MAX_LENGTH
    ensures Short(FieldsOf(k))
    ensures Payload(FieldsOf(k)) ==
      Lv([k.index]) + Lv(k.name) + Lv(k.format) + Lv(k.ktype) + Lv(k.pubkey)
  {
    assert LvEach(FieldsOf(k)) == [Lv([k.index]), Lv(k.name), Lv(k.format), Lv(k.ktype), Lv(k.pubkey)];
    PackFive(Lv([k.index]), Lv(k.name), Lv(k.format), Lv(k.ktype), Lv(k.pubkey));
  }

  /** The octets of a record: index, name, private-key format, key type and public key. */
  lemma EntryOctets(k: Keypair)
    requires Fits(k)
    ensures |k.name| <= 65455
    ensures var fields := [1, k.index] + Lv(k.name) + ([4] + k.format) + ([4] + k.ktype) + ([64] + k.pubkey);
      |fields| <= MAX_LENGTH && Entry(k) == EncodeLength(|fields|) + fields
  {
    StorableNames(k);
    PayloadOf(k);
    assert Lv([k.index]) == [1, k.index] && Lv(k.pubkey) == [64] + k.pubkey;
    assert Lv(k.format) == [4] + k.format && Lv(k.ktype) == [4] + k.ktype;
  }

  /** The three fields behind the name. */
  method PutMaterial(k: Keypair, data: array<byte>, offset: nat) returns (end: nat)
    requires |k.format| == 4 && |k.ktype| == 4 && |k.pubkey| == 64 && offset + 75 <= data.Length
    modifies data
    ensures end == offset + 75
    ensures data[..end] == old(data[..offset]) + Lv(k.format) + Lv(k.ktype) + Lv(k.pubkey)
  {
    var code;
    code, end := PutField(data, offset, k.format);
    code, end := PutField(data, end, k.ktype);
    code, end := PutField(data, end, k.pubkey);
  }

  lemma PackFive(a: seq<byte>, b: seq<byte>, c: seq<byte>, d: seq<byte>, e: seq<byte>)
    ensures Pack([a, b, c, d, e]) == a + b + c + d + e
  {
    PackOne(e);
    assert [a, b, c, d, e][1..] == [b, c, d, e];
    assert [b, c, d, e][1..] == [c, d, e];
    assert [c, d, e][1..] == [d, e];
    assert [d, e][1..] == [e];
    assert Pack([d, e]) == d + e;
    assert Pack([c, d, e]) == c + (d + e) == c + d + e;
    assert Pack([b, c, d, e]) == b + (c + d + e) == b + c + d + e;
  }

  /** Parses the record at `start` into the slot, field by field. A failing read leaves
      the fields behind it as they were. */
  method FromNvram(dev: Device, start: nat, slot0: Keypair, ghost k: Keypair)
    returns (code: int, slot: Keypair, outlen: nat)
    requires Fits(k) && RecordAt(dev.mem[..], start, FieldsOf(k))
    modifies dev`log
    ensures old(dev.log) <= dev.log && code <= SUCCESS
    ensures |dev.log| <= |old(dev.log)| + 11 && (code == SUCCESS ==> |dev.log| == |old(dev.log)| + 11)
    ensures code == SUCCESS <==> dev.CleanSince(|old(dev.log)|)
    ensures code == SUCCESS ==> slot == k && outlen == |Entry(k)|
    ensures slot.index == if |dev.log| > |old(dev.log)| + 3 then k.index else slot0.index
  {
    slot, outlen := slot0, 0;
    var dataLen;
    code, dataLen := ReadRecordLen(dev, start, FieldsOf(k));
    if code != SUCCESS {
      assert !dev.log[|dev.log| - 1];
      return;
    }
    var body := start + LengthWidth(dataLen);
    assert FieldOffset(FieldsOf(k), 0) == 0 && FieldOffset(FieldsOf(k), 1) == 2 by {
      Layout(k);
    }
    var index, next;
    code, index, next := ReadFieldAt(dev, start, body, body, dataLen, 1, false, FieldsOf(k), 0);
    if code != SUCCESS {
      return;
    }
    slot := slot.(index := index[0]);
    code, slot := ReadRest(dev, start, body, next, dataLen, PUBKEY_LEN, false, slot, k);
    outlen := dataLen + LengthWidth(dataLen);
  }

  /** The four fields behind the index; `nameChecked` says that the allocation for the name is
      checked. */
  method ReadRest(dev: Device, ghost start: nat, body: nat, offset: nat, dataLen: nat, wantPubkey: int,
                  nameChecked: bool, slot0: Keypair, ghost k: Keypair)
    returns (code: int, slot: Keypair)
    requires Fits(k) && RecordAt(dev.mem[..], start, FieldsOf(k))
    requires dataLen == |Payload(FieldsOf(k))| && body == start + LengthWidth(dataLen) && offset == body + 2
    requires wantPubkey == -1 || wantPubkey == PUBKEY_LEN
    modifies dev`log
    ensures old(dev.log) <= dev.log && code <= SUCCESS
    ensures |dev.log| <= |old(dev.log)| + (6 + FieldOps(nameChecked))
    ensures code == SUCCESS ==> |dev.log| == |old(dev.log)| + (6 + FieldOps(nameChecked))
    ensures code == SUCCESS <==> dev.CleanSince(|old(dev.log)|)
    ensures code == SUCCESS ==> slot == k.(index := slot0.index)
    ensures slot.index == slot0.index
  {
    slot := slot0;
    ghost var fs := FieldsOf(k);
    assert FieldOffset(fs, 1) == 2 by {
      Layout(k);
    }
    var v, next;
    code, v, next := ReadFieldAt(dev, start, body, offset, dataLen, -1, nameChecked, fs, 1);
    if code != SUCCESS {
      return;
    }
    slot := slot.(name := v);
    code, v, next := ReadFieldAt(dev, start, body, next, dataLen, -1, false, fs, 2);
    if code != SUCCESS {
      return;
    }
    slot := slot.(format := v);
    code, v, next := ReadFieldAt(dev, start, body, next, dataLen, -1, false, fs, 3);
    if code != SUCCESS {
      return;
    }
    slot := slot.(ktype := v);
    code, v, next := ReadFieldAt(dev, start, body, next, dataLen, wantPubkey, false, fs, 4);
    if code != SUCCESS {
      return;
    }
    slot := slot.(pubkey := v);
  }
}
