/** The octets of a file determine its records: a record is recovered from its serialised form. */
module RecordUnique {
  import opened Bytes
  import opened Tlv
  import opened RecordChain
  import opened Fields
  import K = KeypairRecord
  import N = NetworkRecord

  /** A field is recovered from any string that starts with its length and value. */
  lemma LvUnique(a: seq<byte>, b: seq<byte>, x: seq<byte>, y: seq<byte>)
    requires |a| <= MAX_LENGTH && |b| <= MAX_LENGTH && Lv(a) + x == Lv(b) + y
    ensures a == b && x == y
  {
    var s, t := Lv(a) + x, Lv(b) + y;
    ConcatAssoc(EncodeLength(|a|), a, x);
    ConcatAssoc(EncodeLength(|b|), b, y);
    LengthUnique(|a|, |b|, a + x, b + y);
    var w := |EncodeLength(|a|)|;
    assert a == s[w..w + |a|] && b == t[w..w + |b|];
    assert x == s[w + |a|..] && y == t[w + |b|..];
  }

  /** The length form is prefix-free. */
  lemma LengthUnique(m: nat, n: nat, x: seq<byte>, y: seq<byte>)
    requires m <= MAX_LENGTH && n <= MAX_LENGTH && EncodeLength(m) + x == EncodeLength(n) + y
    ensures m == n
  {
    var s, t := EncodeLength(m) + x, EncodeLength(n) + y;
    assert s[0] == t[0];
    if m > 0x7F {
      assert s[1] == t[1];
      if m > 0xFF {
        assert s[2] == t[2];
      }
    }
  }

  lemma {:induction false} PayloadUnique(fs: seq<seq<byte>>, gs: seq<seq<byte>>)
    requires |fs| == |gs| && Short(fs) && Short(gs) && Payload(fs) == Payload(gs)
    ensures fs == gs
  {
    if fs != [] {
      PayloadHead(fs);
      PayloadHead(gs);
      LvUnique(fs[0], gs[0], Payload(fs[1..]), Payload(gs[1..]));
      PayloadUnique(fs[1..], gs[1..]);
    }
  }

  lemma PayloadHead(fs: seq<seq<byte>>)
    requires fs != [] && Short(fs)
    ensures Short(fs[1..]) && Payload(fs) == Lv(fs[0]) + Payload(fs[1..])
  {
    assert LvEach(fs)[1..] == LvEach(fs[1..]);
  }

  lemma RecordOfFields(fs: seq<seq<byte>>, gs: seq<seq<byte>>)
    requires |fs| == |gs| && Storable(fs) && Storable(gs) && Record(fs) == Record(gs)
    ensures fs == gs
  {
    LvUnique(Payload(fs), Payload(gs), [], []);
    PayloadUnique(fs, gs);
  }

  /** No region holds two different lists of keypairs. */
  lemma KeypairsUnique(m: seq<byte>, ks: seq<K.Keypair>, ls: seq<K.Keypair>)
    requires K.HoldsKeypairs(m, ks) && K.HoldsKeypairs(m, ls)
    ensures ks == ls
  {
    HoldsUnique(m, 0, K.Entries(ks), K.Entries(ls));
    forall i | 0 <= i < |ks| ensures ks[i] == ls[i] {
      assert ks[i] in ks && ls[i] in ls;
      assert K.Entries(ks)[i] == K.Entries(ls)[i];
      KeypairOfEntry(ks[i], ls[i]);
    }
  }

  lemma KeypairOfEntry(k: K.Keypair, l: K.Keypair)
    requires K.Fits(k) && K.Fits(l) && K.Entry(k) == K.Entry(l)
    ensures k == l
  {
    var fs, gs := K.FieldsOf(k), K.FieldsOf(l);
    RecordOfFields(fs, gs);
    assert fs[0] == gs[0] && fs[1] == gs[1] && fs[2] == gs[2] && fs[3] == gs[3] && fs[4] == gs[4];
  }

  /** No region holds two different lists of networks. */
  lemma NetworksUnique(m: seq<byte>, ns: seq<N.Network>, ls: seq<N.Network>)
    requires N.HoldsNetworks(m, ns) && N.HoldsNetworks(m, ls)
    ensures ns == ls
  {
    HoldsUnique(m, N.PREFIX_LEN, N.Entries(ns), N.Entries(ls));
    forall i | 0 <= i < |ns| ensures ns[i] == ls[i] {
      assert ns[i] in ns && ls[i] in ls;
      assert N.Entries(ns)[i] == N.Entries(ls)[i];
      NetworkOfEntry(ns[i], ls[i]);
    }
  }

  lemma NetworkOfEntry(n: N.Network, l: N.Network)
    requires N.WellFormed(n) && N.WellFormed(l) && N.Entry(n) == N.Entry(l)
    ensures n == l
  {
    N.Layout(n);
    N.Layout(l);
    var e, f := N.Entry(n), N.Entry(l);
    var fs, gs := N.FieldsOf(n), N.FieldsOf(l);
    assert e[..N.TAG_LEN] == N.Tag(n.protocol) && f[..N.TAG_LEN] == N.Tag(l.protocol);
    N.TagInjective(n.protocol, l.protocol);
    assert e[N.PREFIX_LEN..] == Record(fs) && f[N.PREFIX_LEN..] == Record(gs);
    RecordOfFields(fs, gs);
    assert fs[0] == gs[0] && fs[1] == gs[1] && fs[2] == gs[2] && fs[3] == gs[3];
    assert n.url == fs[3][..|fs[3]| - 1] && l.url == gs[3][..|gs[3]| - 1];
  }
}
