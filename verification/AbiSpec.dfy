/** The argument encoding of the Contract ABI Specification (Solidity documentation, section
    "Formal Specification of the Encoding") and its decoder, for the types built from words,
    byte strings, T[k] and T[]. */
module AbiSpec {
  import opened Bytes

  const WORD: nat := 32
  // 256 to the power WORD
  const MODULUS: nat := 0x1_0000000000000000_0000000000000000_0000000000000000_0000000000000000

  datatype Ty = Word | Blob | Fixed(elem: Ty, k: nat) | Dyn(elem: Ty)

  /** A word stands for any value type, already as its 32 octets. */
  datatype Val = WordV(w: seq<byte>) | BlobV(b: seq<byte>) | ArrayV(vs: seq<Val>)

  predicate IsDynamic(t: Ty) {
    match t
    case Word => false
    case Blob => true
    case Fixed(e, k) => IsDynamic(e)
    case Dyn(e) => true
  }

  predicate Matches(t: Ty, v: Val)
    decreases t, 0
  {
    match t
    case Word => v.WordV? && |v.w| == WORD
    case Blob => v.BlobV? && |v.b| < MODULUS
    case Fixed(e, k) => v.ArrayV? && |v.vs| == k && AllMatch(e, v.vs)
    case Dyn(e) => v.ArrayV? && |v.vs| < MODULUS && AllMatch(e, v.vs)
  }

  predicate AllMatch(t: Ty, vs: seq<Val>)
    decreases t, 1 + |vs|
  {
    vs == [] || (Matches(t, vs[0]) && AllMatch(t, vs[1..]))
  }

  /** One component of a tuple: dynamic ones go to the tail, static ones into the head. */
  datatype Part = Part(dynamic: bool, enc: seq<byte>)

  function HeadLen(p: Part): nat {
    if p.dynamic then WORD else |p.enc|
  }

  function HeadsLen(ps: seq<Part>): nat {
    if ps == [] then 0 else HeadLen(ps[0]) + HeadsLen(ps[1..])
  }

  /** The heads, where the tail of the first dynamic part starts at offset `at`. */
  function Heads(ps: seq<Part>, at: nat): (s: seq<byte>)
    ensures |s| == HeadsLen(ps)
  {
    if ps == [] then []
    else if ps[0].dynamic then BigEndian(WORD, at) + Heads(ps[1..], at + |ps[0].enc|)
    else ps[0].enc + Heads(ps[1..], at)
  }

  function Tails(ps: seq<Part>): seq<byte> {
    if ps == [] then [] else (if ps[0].dynamic then ps[0].enc else []) + Tails(ps[1..])
  }

  /** head(X(1)) ... head(X(k)) tail(X(1)) ... tail(X(k)) */
  function Assemble(ps: seq<Part>): seq<byte> {
    Heads(ps, HeadsLen(ps)) + Tails(ps)
  }

  /** n rounded up to a multiple of 32. */
  function Padded(n: nat): (r: nat)
    ensures n <= r < n + WORD && r % WORD == 0
  {
    (n + 31) / 32 * 32
  }

  function PadRight(b: seq<byte>): (s: seq<byte>)
    ensures |s| == Padded(|b|)
  {
    b + Zeros(Padded(|b|) - |b|)
  }

  function Enc(t: Ty, v: Val): seq<byte>
    requires Matches(t, v)
    decreases t, 0
  {
    match t
    case Word => v.w
    case Blob => BigEndian(WORD, |v.b|) + PadRight(v.b)
    case Fixed(e, k) => Assemble(Parts(e, v.vs))
    case Dyn(e) => BigEndian(WORD, |v.vs|) + Assemble(Parts(e, v.vs))
  }

  function Parts(t: Ty, vs: seq<Val>): (ps: seq<Part>)
    requires AllMatch(t, vs)
    ensures |ps| == |vs|
    decreases t, 1 + |vs|
  {
    if vs == [] then [] else [Part(IsDynamic(t), Enc(t, vs[0]))] + Parts(t, vs[1..])
  }

  predicate TupleMatches(ts: seq<Ty>, vs: seq<Val>) {
    |ts| == |vs| && (ts == [] || (Matches(ts[0], vs[0]) && TupleMatches(ts[1..], vs[1..])))
  }

  function TupleParts(ts: seq<Ty>, vs: seq<Val>): (ps: seq<Part>)
    requires TupleMatches(ts, vs)
    ensures |ps| == |ts|
  {
    if ts == [] then [] else [Part(IsDynamic(ts[0]), Enc(ts[0], vs[0]))] + TupleParts(ts[1..], vs[1..])
  }

  /** The encoding of an argument list. */
  function EncArgs(ts: seq<Ty>, vs: seq<Val>): seq<byte>
    requires TupleMatches(ts, vs)
  {
    Assemble(TupleParts(ts, vs))
  }

  // Decoding

  /** Octets pos..pos+n, as zeros where they are not all there. */
  function Slice(data: seq<byte>, pos: nat, n: nat): (s: seq<byte>)
    ensures |s| == n
  {
    if pos + n <= |data| then data[pos..pos + n] else Zeros(n)
  }

  function Number(data: seq<byte>, pos: nat): nat {
    FromBigEndian(Slice(data, pos, WORD))
  }

  /** Size of a static type. */
  function StaticSize(t: Ty): nat {
    match t
    case Word => WORD
    case Fixed(e, k) => k * StaticSize(e)
    case _ => 0
  }

  function HeadSize(t: Ty): nat {
    if IsDynamic(t) then WORD else StaticSize(t)
  }

  function Dec(t: Ty, data: seq<byte>, pos: nat): Val
    decreases t, 0
  {
    match t
    case Word => WordV(Slice(data, pos, WORD))
    case Blob => BlobV(Slice(data, pos + WORD, Number(data, pos)))
    case Fixed(e, k) => ArrayV(DecElems(e, k, data, pos, pos))
    case Dyn(e) => ArrayV(DecElems(e, Number(data, pos), data, pos + WORD, pos + WORD))
  }

  /** The component whose head is at `at`; its offset, if it has one, counts from `base`. */
  function DecAt(t: Ty, data: seq<byte>, base: nat, at: nat): Val
    decreases t, 1
  {
    if IsDynamic(t) then Dec(t, data, base + Number(data, at)) else Dec(t, data, at)
  }

  /** n components of the same type. */
  function DecElems(t: Ty, n: nat, data: seq<byte>, base: nat, at: nat): (vs: seq<Val>)
    ensures |vs| == n
    decreases t, 2 + n
  {
    if n == 0 then [] else [DecAt(t, data, base, at)] + DecElems(t, n - 1, data, base, at + HeadSize(t))
  }

  function DecTuple(ts: seq<Ty>, data: seq<byte>, base: nat, at: nat): (vs: seq<Val>)
    ensures |vs| == |ts|
  {
    if ts == [] then []
    else [DecAt(ts[0], data, base, at)] + DecTuple(ts[1..], data, base, at + HeadSize(ts[0]))
  }

  function DecArgs(ts: seq<Ty>, data: seq<byte>): seq<Val> {
    DecTuple(ts, data, 0, 0)
  }

  // Round trip

  /** s stands in data at pos. */
  predicate At(data: seq<byte>, pos: nat, s: seq<byte>) {
    pos + |s| <= |data| && data[pos..pos + |s|] == s
  }

  lemma AtSplit(data: seq<byte>, pos: nat, a: seq<byte>, b: seq<byte>)
    requires At(data, pos, a + b)
    ensures At(data, pos, a) && At(data, pos + |a|, b)
  {
    SliceOfSlice(data, pos, |a + b|, 0, |a|);
    SliceOfSlice(data, pos, |a + b|, |a|, |a + b|);
  }

  lemma WordPower()
    ensures Pow256(WORD) == MODULUS
  {
    assert Pow256(8) == 0x1_0000000000000000;
    Pow256Add(8, 8);
    Pow256Add(16, 16);
  }

  lemma AtNumber(data: seq<byte>, pos: nat, n: nat)
    requires At(data, pos, BigEndian(WORD, n)) && n < MODULUS
    ensures Number(data, pos) == n
  {
    WordPower();
    FromToBigEndian(WORD, n);
  }

  lemma {:induction false} StaticLen(t: Ty, v: Val)
    requires Matches(t, v) && !IsDynamic(t)
    ensures |Enc(t, v)| == StaticSize(t)
    decreases t, 0
  {
    if t.Fixed? {
      StaticPartsLen(t.elem, v.vs);
    }
  }

  lemma {:induction false} StaticPartsLen(t: Ty, vs: seq<Val>)
    requires AllMatch(t, vs) && !IsDynamic(t)
    ensures HeadsLen(Parts(t, vs)) == |vs| * StaticSize(t) && Tails(Parts(t, vs)) == []
    decreases t, 1 + |vs|
  {
    if vs != [] {
      StaticLen(t, vs[0]);
      StaticPartsLen(t, vs[1..]);
      var ps, size := Parts(t, vs), StaticSize(t);
      assert ps[1..] == Parts(t, vs[1..]);
      assert |vs| * size == size + (|vs| - 1) * size;
    }
  }

  /** Decoding finds every encoded value, wherever it stands. */
  lemma {:induction false} DecEnc(t: Ty, v: Val, data: seq<byte>, pos: nat)
    requires Matches(t, v) && At(data, pos, Enc(t, v)) && |data| < MODULUS
    ensures Dec(t, data, pos) == v
    decreases t, 0
  {
    match t
    case Word =>
    case Blob =>
      AtSplit(data, pos, BigEndian(WORD, |v.b|), PadRight(v.b));
      AtNumber(data, pos, |v.b|);
      AtSplit(data, pos + WORD, v.b, Zeros(Padded(|v.b|) - |v.b|));
    case Fixed(e, k) =>
      var ps := Parts(e, v.vs);
      AssembledStand(ps, data, pos);
      DecElemsEnc(e, v.vs, data, pos, pos, HeadsLen(ps));
    case Dyn(e) =>
      var ps := Parts(e, v.vs);
      AtSplit(data, pos, BigEndian(WORD, |v.vs|), Assemble(ps));
      AtNumber(data, pos, |v.vs|);
      AssembledStand(ps, data, pos + WORD);
      DecElemsEnc(e, v.vs, data, pos + WORD, pos + WORD, HeadsLen(ps));
  }

  /** Each part can be found: a static one at its head, a dynamic one where its head points,
      counting from `base`. Heads start at `at`, tails at base + tailAt. */
  predicate Stand(ps: seq<Part>, data: seq<byte>, base: nat, at: nat, tailAt: nat) {
    ps == [] ||
    if ps[0].dynamic then
      Number(data, at) == tailAt && At(data, base + tailAt, ps[0].enc) &&
      Stand(ps[1..], data, base, at + WORD, tailAt + |ps[0].enc|)
    else
      At(data, at, ps[0].enc) && Stand(ps[1..], data, base, at + |ps[0].enc|, tailAt)
  }

  lemma {:induction false} HeadsStand(ps: seq<Part>, data: seq<byte>, base: nat, at: nat, tailAt: nat)
    requires |data| < MODULUS && At(data, at, Heads(ps, tailAt)) && At(data, base + tailAt, Tails(ps))
    ensures Stand(ps, data, base, at, tailAt)
  {
    if ps != [] {
      if ps[0].dynamic {
        DynamicHead(ps, data, base, at, tailAt);
        HeadsStand(ps[1..], data, base, at + WORD, tailAt + |ps[0].enc|);
      } else {
        StaticHead(ps, data, at, tailAt);
        assert [] + Tails(ps[1..]) == Tails(ps[1..]);
        HeadsStand(ps[1..], data, base, at + |ps[0].enc|, tailAt);
      }
    }
  }

  lemma DynamicHead(ps: seq<Part>, data: seq<byte>, base: nat, at: nat, tailAt: nat)
    requires |data| < MODULUS && At(data, at, Heads(ps, tailAt)) && At(data, base + tailAt, Tails(ps))
    requires ps != [] && ps[0].dynamic
    ensures Number(data, at) == tailAt && At(data, base + tailAt, ps[0].enc)
    ensures At(data, at + WORD, Heads(ps[1..], tailAt + |ps[0].enc|))
    ensures At(data, base + (tailAt + |ps[0].enc|), Tails(ps[1..]))
  {
    AtSplit(data, at, BigEndian(WORD, tailAt), Heads(ps[1..], tailAt + |ps[0].enc|));
    AtSplit(data, base + tailAt, ps[0].enc, Tails(ps[1..]));
    AtNumber(data, at, tailAt);
  }

  lemma StaticHead(ps: seq<Part>, data: seq<byte>, at: nat, tailAt: nat)
    requires At(data, at, Heads(ps, tailAt)) && ps != [] && !ps[0].dynamic
    ensures At(data, at, ps[0].enc) && At(data, at + |ps[0].enc|, Heads(ps[1..], tailAt))
  {
    AtSplit(data, at, ps[0].enc, Heads(ps[1..], tailAt));
  }

  lemma AssembledStand(ps: seq<Part>, data: seq<byte>, pos: nat)
    requires |data| < MODULUS && At(data, pos, Assemble(ps))
    ensures Stand(ps, data, pos, pos, HeadsLen(ps))
  {
    AtSplit(data, pos, Heads(ps, HeadsLen(ps)), Tails(ps));
    HeadsStand(ps, data, pos, pos, HeadsLen(ps));
  }

  lemma Rest<T>(s: seq<T>, whole: seq<T>, first: T, rest: seq<T>)
    requires s != [] && whole == [first] + rest && first == s[0] && rest == s[1..]
    ensures whole == s
  {
  }

  lemma {:induction false} DecElemsEnc(t: Ty, vs: seq<Val>, data: seq<byte>, base: nat, at: nat, tailAt: nat)
    requires AllMatch(t, vs) && |data| < MODULUS && Stand(Parts(t, vs), data, base, at, tailAt)
    ensures DecElems(t, |vs|, data, base, at) == vs
    decreases t, 2 + |vs|
  {
    if vs != [] {
      var ps := Parts(t, vs);
      assert ps[0] == Part(IsDynamic(t), Enc(t, vs[0])) && ps[1..] == Parts(t, vs[1..]);
      var next := NextPart(t, vs[0], ps, data, base, at, tailAt);
      DecElemsEnc(t, vs[1..], data, base, at + HeadSize(t), next);
      Rest(vs, DecElems(t, |vs|, data, base, at), DecAt(t, data, base, at),
           DecElems(t, |vs| - 1, data, base, at + HeadSize(t)));
    }
  }

  /** The first of the parts is decoded right, and the others stand behind it. */
  lemma {:induction false} NextPart(t: Ty, v: Val, ps: seq<Part>, data: seq<byte>, base: nat, at: nat, tailAt: nat)
    returns (next: nat)
    requires Matches(t, v) && |data| < MODULUS && Stand(ps, data, base, at, tailAt)
    requires ps != [] && ps[0] == Part(IsDynamic(t), Enc(t, v))
    ensures DecAt(t, data, base, at) == v
    ensures Stand(ps[1..], data, base, at + HeadSize(t), next)
    decreases t, 1
  {
    if IsDynamic(t) {
      DecEnc(t, v, data, base + tailAt);
      next := tailAt + |ps[0].enc|;
    } else {
      StaticLen(t, v);
      DecEnc(t, v, data, at);
      next := tailAt;
    }
  }

  lemma {:induction false} DecTupleEnc(ts: seq<Ty>, vs: seq<Val>, data: seq<byte>, base: nat, at: nat, tailAt: nat)
    requires TupleMatches(ts, vs) && |data| < MODULUS && Stand(TupleParts(ts, vs), data, base, at, tailAt)
    ensures DecTuple(ts, data, base, at) == vs
  {
    if ts != [] {
      var ps := TupleParts(ts, vs);
      assert ps[0] == Part(IsDynamic(ts[0]), Enc(ts[0], vs[0])) && ps[1..] == TupleParts(ts[1..], vs[1..]);
      var next := NextPart(ts[0], vs[0], ps, data, base, at, tailAt);
      DecTupleEnc(ts[1..], vs[1..], data, base, at + HeadSize(ts[0]), next);
      assert vs == [vs[0]] + vs[1..];
    }
  }

  /** The decoder recovers every argument list from its encoding. */
  lemma RoundTrip(ts: seq<Ty>, vs: seq<Val>)
    requires TupleMatches(ts, vs) && |EncArgs(ts, vs)| < MODULUS
    ensures DecArgs(ts, EncArgs(ts, vs)) == vs
  {
    var data, ps := EncArgs(ts, vs), TupleParts(ts, vs);
    assert data[0..0 + |data|] == data;
    AssembledStand(ps, data, 0);
    DecTupleEnc(ts, vs, data, 0, 0, HeadsLen(ps));
  }
}
