/** Signing and encoding of a raw transaction, with and without EIP-155. Hash and signature are
    arbitrary functions. */
module RawTx {
  import opened Bytes
  import opened Rlp

  const MAX_RLP_LIST_DESC_NUM: nat := 15
  const RLP_ENCODER_APPEND_FAIL: int := -10500002
  const RLP_ENCODER_REPLACE_FAIL: int := -10500003

  datatype Option<T> = None | Some(value: T)

  /** Recipient, amounts and so on, as octet strings; chain id and compatibility come from the
      network of the wallet. */
  datatype Fields = Fields(nonce: seq<byte>, gasprice: seq<byte>, gaslimit: seq<byte>, recipient: seq<byte>,
                           value: seq<byte>, data: seq<byte>, eip155: bool, chainId: nat)

  /** Sizes of the C fields. The data leaves room for everything else in a stream whose length
      is a BUINT32. */
  predicate Valid(f: Fields) {
    && |f.nonce| <= 32 && |f.gasprice| <= 32 && |f.gaslimit| <= 32 && |f.value| <= 32
    && |f.recipient| == 20 && |f.data| < 0xFFFF_FE00 && f.chainId < U32
  }

  /** What the signature function delivers. */
  datatype Signature = Signature(native: Option<seq<byte>>, prefix: Option<byte>)

  function Strings(fields: seq<seq<byte>>): seq<Item> {
    if fields == [] then [] else [Str(fields[0])] + Strings(fields[1..])
  }

  /** UtilityTrimBin: leading zeros removed, zero as the empty string. */
  function Trim(s: seq<byte>): (t: seq<byte>)
    ensures |t| <= |s|
  {
    if s == [] || s[0] != 0 then s else Trim(s[1..])
  }

  function Base(f: Fields): seq<seq<byte>> {
    [f.nonce, f.gasprice, f.gaslimit, f.recipient, f.value, f.data]
  }

  /** The list that is hashed and signed. */
  function Preimage(f: Fields): seq<seq<byte>> {
    if f.eip155 then Base(f) + [Minimal(f.chainId), [], []] else Base(f)
  }

  /** The recovery identifier, in 32-bit arithmetic. */
  function V(f: Fields, parity: nat): (v: nat)
    ensures v < U32
  {
    if f.eip155 then (f.chainId * 2 + parity + 35) % U32 else (parity + 27) % U32
  }

  function Final(f: Fields, parity: nat, r: seq<byte>, s: seq<byte>): seq<seq<byte>> {
    Base(f) + [Minimal(V(f, parity)), Trim(r), Trim(s)]
  }

  // Sizes

  lemma {:induction false} SizeBound(fields: seq<seq<byte>>)
    requires forall i :: 0 <= i < |fields| ==> |fields[i]| < U32
    ensures SizeAll(Strings(fields)) <= TotalLen(fields) + 5 * |fields|
  {
    if fields != [] {
      SizeBound(fields[1..]);
      LenLen(|fields[0]|);
      assert Strings(fields)[1..] == Strings(fields[1..]);
    }
  }

  function TotalLen(fields: seq<seq<byte>>): nat {
    if fields == [] then 0 else |fields[0]| + TotalLen(fields[1..])
  }

  /** All fields but the k-th are short. */
  lemma {:induction false} TotalBound(fields: seq<seq<byte>>, k: int)
    requires forall i :: 0 <= i < |fields| && i != k ==> |fields[i]| <= 32
    ensures TotalLen(fields) <= 32 * |fields| + (if 0 <= k < |fields| then |fields[k]| else 0)
  {
    if fields != [] {
      TotalBound(fields[1..], k - 1);
    }
  }

  lemma StreamFits(fields: seq<seq<byte>>)
    requires 6 <= |fields| <= 9 && |fields[5]| < 0xFFFF_FE00
    requires forall i :: 0 <= i < |fields| && i != 5 ==> |fields[i]| <= 32
    ensures Size(Lst(Strings(fields))) < U32
  {
    TotalBound(fields, 5);
    SizeBound(fields);
    LenLen(SizeAll(Strings(fields)));
  }

  lemma PreimageFits(f: Fields)
    requires Valid(f)
    ensures Size(Lst(Strings(Preimage(f)))) < U32
  {
    LenLen(f.chainId);
    StreamFits(Preimage(f));
  }

  lemma FinalFits(f: Fields, parity: nat, r: seq<byte>, s: seq<byte>)
    requires Valid(f) && |r| == |s| == 32
    ensures Size(Lst(Strings(Final(f, parity, r, s)))) < U32
  {
    LenLen(V(f, parity));
    StreamFits(Final(f, parity, r, s));
  }

  // The encoder's list and the transaction

  /** A list object with room for MAX_RLP_LIST_DESC_NUM descriptors. */
  class RlpList {
    var fields: seq<seq<byte>>

    constructor ()
      ensures fields == []
    {
      fields := [];
    }

    method Append(field: seq<byte>) returns (index: int)
      modifies this
      ensures |old(fields)| < MAX_RLP_LIST_DESC_NUM ==> index == |old(fields)| && fields == old(fields) + [field]
      ensures |old(fields)| >= MAX_RLP_LIST_DESC_NUM ==> index == RLP_ENCODER_APPEND_FAIL && fields == old(fields)
    {
      if |fields| >= MAX_RLP_LIST_DESC_NUM {
        return RLP_ENCODER_APPEND_FAIL;
      }
      index := |fields|;
      fields := fields + [field];
    }

    method Replace(at: int, field: seq<byte>) returns (index: int)
      modifies this
      ensures 0 <= at < |old(fields)| ==> index == at && fields == old(fields)[at := field]
      ensures !(0 <= at < |old(fields)|) ==> index == RLP_ENCODER_REPLACE_FAIL && fields == old(fields)
    {
      if !(0 <= at < |fields|) {
        return RLP_ENCODER_REPLACE_FAIL;
      }
      fields := fields[at := field];
      index := at;
    }
  }

  datatype Outcome = Sent(stream: seq<byte>) | HashFailed | SignFailed | EncoderFailed

  class Tx {
    const fields: Fields
    // rawtx_fields.v and rawtx_fields.sig
    var v: seq<byte>
    var r32: seq<byte>
    var s32: seq<byte>
    var rLen: nat
    var sLen: nat

    ghost predicate Ready()
      reads this
    {
      Valid(fields) && |r32| == |s32| == 32
    }

    /** The signature that is encoded: what the signature function wrote, or what the fields
        held before. */
    ghost function Signed(sig: Signature): (rs: (seq<byte>, seq<byte>))
      requires sig.native.Some? ==> |sig.native.value| == 64
      reads this
      ensures sig.native.Some? ==> rs.0 + rs.1 == sig.native.value && |rs.0| == |rs.1| == 32
      ensures sig.native.None? ==> rs.0 == r32 && rs.1 == s32
    {
      if sig.native.Some? then (sig.native.value[..32], sig.native.value[32..]) else (r32, s32)
    }

    /** The six fields that are always there. */
    method AppendBase(list: RlpList) returns (ok: bool)
      requires list.fields == []
      modifies list
      ensures ok && list.fields == Base(fields)
    {
      ok := false;
      var index := list.Append(fields.nonce);
      if index < 0 { return; }
      index := list.Append(fields.gasprice);
      if index < 0 { return; }
      index := list.Append(fields.gaslimit);
      index := list.Append(fields.recipient);
      if index < 0 { return; }
      index := list.Append(fields.value);
      if index < 0 { return; }
      index := list.Append(fields.data);
      ok := index >= 0;
    }

    /** Under EIP-155: the chain id, and empty r and s. */
    method AppendChain(list: RlpList) returns (vIndex: int, rIndex: int, sIndex: int)
      requires list.fields == Base(fields) && fields.eip155
      modifies this`v, this`rLen, this`sLen, list
      ensures (vIndex, rIndex, sIndex) == (6, 7, 8) && list.fields == Preimage(fields)
    {
      v := Minimal(fields.chainId);
      rLen, sLen := 0, 0;
      vIndex := list.Append(v);
      rIndex := list.Append(r32[..0]);
      sIndex := list.Append(s32[..0]);
      assert list.fields == Base(fields) + [v, [], []];
    }

    /** Takes over a signature and trims it. */
    method Store(sig: Signature)
      requires Ready() && (sig.native.Some? ==> |sig.native.value| == 64)
      modifies this`r32, this`s32, this`rLen, this`sLen
      ensures Ready() && rLen <= 32 && sLen <= 32
      ensures var (r, s) := old(Signed(sig)); r32[..rLen] == Trim(r) && s32[..sLen] == Trim(s)
    {
      if sig.native.Some? {
        r32, s32 := sig.native.value[..32], sig.native.value[32..];
      }
      var r, s := Trim(r32), Trim(s32);
      rLen, sLen := |r|, |s|;
      r32, s32 := r + r32[rLen..], s + s32[sLen..];
    }

    /** Puts one field at its place: over the placeholder under EIP-155, else at the end. */
    method Put(list: RlpList, at: int, field: seq<byte>) returns (index: int)
      requires if fields.eip155 then 0 <= at < |list.fields| else |list.fields| < MAX_RLP_LIST_DESC_NUM
      modifies list
      ensures index >= 0
      ensures list.fields == if fields.eip155 then old(list.fields)[at := field] else old(list.fields) + [field]
    {
      if fields.eip155 {
        index := list.Replace(at, field);
      } else {
        index := list.Append(field);
      }
    }

    method PutSignature(list: RlpList, parity: byte, vIndex: int, rIndex: int, sIndex: int, ghost r: seq<byte>, ghost s: seq<byte>)
      returns (ok: bool)
      requires Ready() && rLen <= 32 && sLen <= 32 && r32[..rLen] == Trim(r) && s32[..sLen] == Trim(s)
      requires list.fields == Preimage(fields) && (fields.eip155 ==> (vIndex, rIndex, sIndex) == (6, 7, 8))
      modifies this`v, list
      ensures ok && list.fields == Final(fields, parity, r, s) && v == Minimal(V(fields, parity))
    {
      ok := false;
      v := Minimal(if fields.eip155 then (fields.chainId * 2 + parity + 35) % U32 else (parity + 27) % U32);
      var index := Put(list, vIndex, v);
      if index < 0 { return; }
      index := Put(list, rIndex, r32[..rLen]);
      if index < 0 { return; }
      index := Put(list, sIndex, s32[..sLen]);
      ok := index >= 0;
      assert list.fields == Base(fields) + [v, Trim(r), Trim(s)];
    }

    /** What EthSendRawtx hands to the node. */
    method Send(hash: seq<byte> -> Option<seq<byte>>, sign: seq<byte> -> Option<Signature>) returns (out: Outcome)
      requires Ready()
      requires forall d :: sign(d).Some? && sign(d).value.native.Some? ==> |sign(d).value.native.value| == 64
      modifies this
      ensures Ready() && Size(Lst(Strings(Preimage(fields)))) < U32
      ensures var digest := hash(Enc(Lst(Strings(Preimage(fields)))));
        if digest.None? then out == HashFailed
        else if sign(digest.value).None? then out == SignFailed
        else
          var sig := sign(digest.value).value;
          var (r, s) := old(Signed(sig));
          var parity := if sig.prefix.Some? then sig.prefix.value else 0;
          Size(Lst(Strings(Final(fields, parity, r, s)))) < U32 &&
          out == Sent(Enc(Lst(Strings(Final(fields, parity, r, s)))))
    {
      var list := new RlpList();
      var ok := AppendBase(list);
      if !ok {
        return EncoderFailed;
      }
      var vIndex, rIndex, sIndex := 0, 0, 0;
      if fields.eip155 {
        vIndex, rIndex, sIndex := AppendChain(list);
      }
      PreimageFits(fields);
      var digest := hash(Enc(Lst(Strings(list.fields))));
      if digest.None? {
        return HashFailed;
      }
      var answer := sign(digest.value);
      if answer.None? {
        return SignFailed;
      }
      var sig := answer.value;
      ghost var (r, s) := Signed(sig);
      Store(sig);
      var parity := if sig.prefix.Some? then sig.prefix.value else 0;
      ok := PutSignature(list, parity, vIndex, rIndex, sIndex, r, s);
      if !ok {
        return EncoderFailed;
      }
      FinalFits(fields, parity, r, s);
      out := Sent(Enc(Lst(Strings(list.fields))));
    }
  }

  // What the two lists mean

  lemma {:induction false} StringsInjective(a: seq<seq<byte>>, b: seq<seq<byte>>)
    requires Strings(a) == Strings(b)
    ensures a == b
  {
    if a != [] {
      assert Strings(a)[0] == Strings(b)[0] && Strings(a)[1..] == Strings(b)[1..];
      StringsInjective(a[1..], b[1..]);
      assert a == [a[0]] + a[1..] && b == [b[0]] + b[1..];
    } else {
      assert |Strings(b)| == 0;
    }
  }

  /** Transactions with the same signing preimage agree in every field, in the compatibility mode
      and, under EIP-155, in the chain id. */
  lemma PreimageInjective(f: Fields, g: Fields)
    requires Valid(f) && Valid(g)
    ensures Size(Lst(Strings(Preimage(f)))) < U32 && Size(Lst(Strings(Preimage(g)))) < U32
    ensures Enc(Lst(Strings(Preimage(f)))) == Enc(Lst(Strings(Preimage(g)))) <==>
      && f.nonce == g.nonce && f.gasprice == g.gasprice && f.gaslimit == g.gaslimit
      && f.recipient == g.recipient && f.value == g.value && f.data == g.data
      && f.eip155 == g.eip155 && (f.eip155 ==> f.chainId == g.chainId)
  {
    PreimageFits(f);
    PreimageFits(g);
    if Enc(Lst(Strings(Preimage(f)))) == Enc(Lst(Strings(Preimage(g)))) {
      EncInjective(Lst(Strings(Preimage(f))), Lst(Strings(Preimage(g))));
      StringsInjective(Preimage(f), Preimage(g));
      SamePreimage(f, g);
    }
  }

  lemma SamePreimage(f: Fields, g: Fields)
    requires Preimage(f) == Preimage(g)
    ensures f.nonce == g.nonce && f.gasprice == g.gasprice && f.gaslimit == g.gaslimit
    ensures f.recipient == g.recipient && f.value == g.value && f.data == g.data
    ensures f.eip155 == g.eip155 && (f.eip155 ==> f.chainId == g.chainId)
  {
    assert f.eip155 == (|Preimage(f)| == 9) && g.eip155 == (|Preimage(g)| == 9);
    SixFields(f);
    SixFields(g);
    if f.eip155 {
      assert Preimage(f)[6] == Minimal(f.chainId) && Preimage(g)[6] == Minimal(g.chainId);
      MinimalValue(f.chainId);
      MinimalValue(g.chainId);
    }
  }

  /** The first six items of the list that is signed, in the order of the Ethereum Yellow Paper. */
  lemma SixFields(f: Fields)
    ensures var p := Preimage(f);
      && |p| == (if f.eip155 then 9 else 6)
      && p[0] == f.nonce && p[1] == f.gasprice && p[2] == f.gaslimit
      && p[3] == f.recipient && p[4] == f.value && p[5] == f.data
  {
  }

  lemma {:induction false} StringsAt(fields: seq<seq<byte>>, i: nat)
    requires i < |fields|
    ensures |Strings(fields)| == |fields| && Strings(fields)[i] == Str(fields[i])
  {
    if i > 0 {
      StringsAt(fields[1..], i - 1);
    } else if |fields| > 1 {
      StringsAt(fields[1..], 0);
    }
  }

  /** A list of strings is decoded from its encoding item by item. */
  lemma ListDecodes(fields: seq<seq<byte>>) returns (items: seq<Item>)
    requires Size(Lst(Strings(fields))) < U32 && fields != []
    ensures var octets := Enc(Lst(Strings(fields)));
      octets != [] && Dec(octets) == Decoded.Item(Lst(items), |octets|)
    ensures |items| == |fields| && forall i :: 0 <= i < |fields| ==> items[i] == Str(fields[i])
  {
    items := Strings(fields);
    var list := Lst(items);
    DecEnc(list, []);
    assert Enc(list) + [] == Enc(list);
    StringsAt(fields, 0);
    forall i | 0 <= i < |fields| ensures items[i] == Str(fields[i]) {
      StringsAt(fields, i);
    }
  }

  /** What is hashed decodes to these six fields and, under EIP-155, to the chain id and two empty
      strings, as that proposal asks for. */
  lemma PreimageDecodes(f: Fields) returns (items: seq<Item>)
    requires Valid(f)
    ensures Size(Lst(Strings(Preimage(f)))) < U32
    ensures var octets := Enc(Lst(Strings(Preimage(f))));
      octets != [] && Dec(octets) == Decoded.Item(Lst(items), |octets|)
    ensures |items| == if f.eip155 then 9 else 6
    ensures items[0] == Str(f.nonce) && items[1] == Str(f.gasprice) && items[2] == Str(f.gaslimit)
    ensures items[3] == Str(f.recipient) && items[4] == Str(f.value) && items[5] == Str(f.data)
    ensures f.eip155 ==>
      items[6].Str? && FromBigEndian(items[6].s) == f.chainId && (items[6].s == [] || items[6].s[0] != 0) &&
      items[7] == items[8] == Str([])
  {
    PreimageFits(f);
    items := ListDecodes(Preimage(f));
    SixFields(f);
    MinimalValue(f.chainId);
  }

  /** Trimming keeps the number, and equal numbers are trimmed to the same octets. */
  lemma {:induction false} TrimValue(s: seq<byte>)
    ensures Trim(s) == Minimal(FromBigEndian(s))
  {
    if s == [] || s[0] != 0 {
      MinimalUnique(s);
    } else {
      TrimValue(s[1..]);
      LeadingZero(s);
    }
  }

  lemma {:induction false} LeadingZero(s: seq<byte>)
    requires s != [] && s[0] == 0
    ensures FromBigEndian(s) == FromBigEndian(s[1..])
  {
    if |s| > 1 {
      LeadingZero(s[..|s| - 1]);
      assert s[1..][..|s| - 2] == s[..|s| - 1][1..];
    } else {
      assert s[..0] == [] && s[1..] == [];
    }
  }

  /** Scalar fields trimmed as the setters do are equal octet strings exactly when they are
      equal numbers. */
  lemma ScalarsEqual(s: seq<byte>, t: seq<byte>)
    ensures Trim(s) == Trim(t) <==> FromBigEndian(s) == FromBigEndian(t)
  {
    TrimValue(s);
    TrimValue(t);
    MinimalValue(FromBigEndian(s));
    MinimalValue(FromBigEndian(t));
  }

  /** The reader's side of EIP-155. */
  function ChainOf(v: int): int {
    (v - 35) / 2
  }

  function ParityOf(v: int): int {
    (v - 35) % 2
  }

  /** Chain id and parity can be recovered from the transmitted v exactly when v does not wrap
      around; for chain ids up to (2^32 - 1 - 36) / 2 it does not, and v is neither 27 nor 28. */
  lemma VRecoverable(f: Fields, parity: nat)
    requires Valid(f) && f.eip155 && parity <= 1
    ensures var v := FromBigEndian(Minimal(V(f, parity)));
      && (ChainOf(v) == f.chainId && ParityOf(v) == parity <==> f.chainId * 2 + parity + 35 < U32)
      && (f.chainId <= (U32 - 1 - 36) / 2 ==> f.chainId * 2 + parity + 35 < U32 && v != 27 && v != 28)
  {
    var sum := f.chainId * 2 + parity + 35;
    MinimalValue(V(f, parity));
    Recovered(V(f, parity), f.chainId, parity);
    Unwrapped(sum);
  }

  /** Chain id and parity are those of v exactly if v is their sum. */
  lemma Recovered(v: int, chainId: nat, parity: nat)
    requires parity <= 1
    ensures ChainOf(v) == chainId && ParityOf(v) == parity <==> v == chainId * 2 + parity + 35
  {
  }

  lemma Unwrapped(n: nat)
    ensures n % U32 == n <==> n < U32
  {
  }

  /** Without EIP-155, v is 27 or 28. */
  lemma VPlain(f: Fields, parity: nat)
    requires !f.eip155 && parity <= 1
    ensures FromBigEndian(Minimal(V(f, parity))) == 27 + parity
  {
    var v := V(f, parity);
    MinimalValue(v);
  }

  /** Every v stands for a second chain id as well, 2^31 away; one of the two is beyond the bound. */
  lemma WrapCollision(f: Fields, parity: nat)
    requires Valid(f) && f.eip155 && parity <= 1
    ensures var g := f.(chainId := (f.chainId + 0x8000_0000) % U32);
      && Valid(g) && g.chainId != f.chainId && V(g, parity) == V(f, parity)
      && (f.chainId * 2 + parity + 35 >= U32 || g.chainId * 2 + parity + 35 >= U32)
  {
    var g := f.(chainId := (f.chainId + 0x8000_0000) % U32);
    assert g.chainId == if f.chainId < 0x8000_0000 then f.chainId + 0x8000_0000 else f.chainId - 0x8000_0000;
  }

  /** The node decodes nine fields: the six that were signed, then v, r and s. */
  lemma FinalDecodes(f: Fields, parity: nat, r: seq<byte>, s: seq<byte>) returns (items: seq<Item>)
    requires Valid(f) && |r| == |s| == 32
    ensures Size(Lst(Strings(Final(f, parity, r, s)))) < U32
    ensures var stream := Enc(Lst(Strings(Final(f, parity, r, s))));
      stream != [] && Dec(stream) == Decoded.Item(Lst(items), |stream|)
    ensures |items| == 9 && items[6].Str? && items[7].Str? && items[8].Str?
    ensures items[0] == Str(f.nonce) && items[1] == Str(f.gasprice) && items[2] == Str(f.gaslimit)
    ensures items[3] == Str(f.recipient) && items[4] == Str(f.value) && items[5] == Str(f.data)
    ensures FromBigEndian(items[6].s) == (if f.eip155 then f.chainId * 2 + 35 + parity else 27 + parity) % 0x1_0000_0000
    ensures FromBigEndian(items[7].s) == FromBigEndian(r) && FromBigEndian(items[8].s) == FromBigEndian(s)
  {
    FinalFits(f, parity, r, s);
    var final := Final(f, parity, r, s);
    items := ListDecodes(final);
    assert final[6] == Minimal(V(f, parity)) && final[7] == Trim(r) && final[8] == Trim(s);
    VValue(f, parity);
    TrimmedValue(r);
    TrimmedValue(s);
  }

  lemma VValue(f: Fields, parity: nat)
    ensures FromBigEndian(Minimal(V(f, parity))) == (if f.eip155 then f.chainId * 2 + 35 + parity else 27 + parity) % 0x1_0000_0000
  {
    MinimalValue(V(f, parity));
  }

  lemma TrimmedValue(s: seq<byte>)
    ensures FromBigEndian(Trim(s)) == FromBigEndian(s)
  {
    TrimValue(s);
    MinimalValue(FromBigEndian(s));
  }
}
