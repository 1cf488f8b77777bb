/** The argument types the generator supports, their C values, and what both mean in terms of
    the Contract ABI Specification. */
module AbiArgs {
  import opened Bytes
  import opened AbiSpec
  import opened AbiWords

  /** T, T[k], T[]; string or bytes, and their arrays. */
  datatype ArgTy =
    | Scalar(e: Elem)
    | FixedArray(e: Elem, k: nat)
    | DynArray(e: Elem)
    | Bytes(text: bool)
    | BytesArray(text: bool)
    | BytesFixedArray(text: bool, k: nat)

  /** Elements by memory image, byte strings by contents. */
  datatype Arg = Elems(mems: seq<seq<byte>>) | Octets(b: seq<byte>) | Strings(bs: seq<seq<byte>>)

  predicate ElemsFit(e: Elem, mems: seq<seq<byte>>) {
    Supported(e) && (mems == [] || (|mems[0]| == SizeOf(e) && ElemsFit(e, mems[1..])))
  }

  /** Every length fits a BUINT32. */
  predicate Short(bs: seq<seq<byte>>) {
    bs == [] || (|bs[0]| < U32 && Short(bs[1..]))
  }

  predicate NoZero(b: seq<byte>) {
    b == [] || (b[0] != 0 && NoZero(b[1..]))
  }

  // The range of BUINT32
  const U32: nat := 0x1_0000_0000

  /** A C value of the type; a string argument is a C string, so it holds no zero. */
  predicate Fits(t: ArgTy, a: Arg) {
    match t
    case Scalar(e) => a.Elems? && |a.mems| == 1 && ElemsFit(e, a.mems)
    case FixedArray(e, k) => a.Elems? && |a.mems| == k && ElemsFit(e, a.mems)
    case DynArray(e) => a.Elems? && |a.mems| < U32 && ElemsFit(e, a.mems)
    case Bytes(text) => a.Octets? && |a.b| < U32 && (text ==> NoZero(a.b))
    case BytesArray(_) => a.Strings? && |a.bs| < U32 && Short(a.bs)
    case BytesFixedArray(_, k) => a.Strings? && |a.bs| == k && Short(a.bs)
  }

  function TyOf(t: ArgTy): Ty {
    match t
    case Scalar(_) => Word
    case FixedArray(_, k) => Fixed(Word, k)
    case DynArray(_) => Dyn(Word)
    case Bytes(_) => Blob
    case BytesArray(_) => Dyn(Blob)
    case BytesFixedArray(_, k) => Fixed(Blob, k)
  }

  function UseOf(t: ArgTy): Use {
    match t
    case FixedArray(_, _) => InFixed
    case DynArray(_) => InDynamic
    case _ => Single
  }

  /** The value as the words the emitted code writes (spec = false), or as it should be. */
  function ValOf(t: ArgTy, a: Arg, spec: bool): (v: Val)
    requires Fits(t, a)
    ensures Matches(TyOf(t), v)
  {
    match t
    case Scalar(e) => WordV(WordOf(t, a.mems[0], spec))
    case FixedArray(e, _) =>
      WordsMatch(t, a.mems, spec);
      ArrayV(WordVals(t, a.mems, spec))
    case DynArray(e) =>
      WordsMatch(t, a.mems, spec);
      ArrayV(WordVals(t, a.mems, spec))
    case Bytes(_) => BlobV(a.b)
    case BytesArray(_) =>
      BlobsMatch(a.bs);
      ArrayV(BlobVals(a.bs))
    case BytesFixedArray(_, _) =>
      BlobsMatch(a.bs);
      ArrayV(BlobVals(a.bs))
  }

  predicate HasElem(t: ArgTy) {
    t.Scalar? || t.FixedArray? || t.DynArray?
  }

  function WordOf(t: ArgTy, mem: seq<byte>, spec: bool): (w: seq<byte>)
    requires HasElem(t) && Supported(t.e) && |mem| == SizeOf(t.e)
    ensures |w| == WORD
  {
    if spec then SpecWord(t.e, mem) else EmittedWord(UseOf(t), t.e, mem)
  }

  function WordVals(t: ArgTy, mems: seq<seq<byte>>, spec: bool): (vs: seq<Val>)
    requires HasElem(t) && ElemsFit(t.e, mems)
    ensures |vs| == |mems|
  {
    if mems == [] then [] else [WordV(WordOf(t, mems[0], spec))] + WordVals(t, mems[1..], spec)
  }

  function BlobVals(bs: seq<seq<byte>>): (vs: seq<Val>)
    ensures |vs| == |bs|
  {
    if bs == [] then [] else [BlobV(bs[0])] + BlobVals(bs[1..])
  }

  lemma {:induction false} WordsMatch(t: ArgTy, mems: seq<seq<byte>>, spec: bool)
    requires HasElem(t) && ElemsFit(t.e, mems)
    ensures AllMatch(Word, WordVals(t, mems, spec))
  {
    if mems != [] {
      WordsMatch(t, mems[1..], spec);
    }
  }

  lemma {:induction false} BlobsMatch(bs: seq<seq<byte>>)
    requires Short(bs)
    ensures AllMatch(Blob, BlobVals(bs))
  {
    if bs != [] {
      BlobsMatch(bs[1..]);
    }
  }

  predicate AllFit(ts: seq<ArgTy>, args: seq<Arg>) {
    |ts| == |args| && forall i :: 0 <= i < |ts| ==> Fits(ts[i], args[i])
  }

  function TysOf(ts: seq<ArgTy>): (r: seq<Ty>)
    ensures |r| == |ts|
  {
    seq(|ts|, i requires 0 <= i < |ts| => TyOf(ts[i]))
  }

  function ValsOf(ts: seq<ArgTy>, args: seq<Arg>, spec: bool): (r: seq<Val>)
    requires AllFit(ts, args)
    ensures |r| == |ts|
  {
    seq(|ts|, i requires 0 <= i < |ts| => ValOf(ts[i], args[i], spec))
  }

  lemma {:induction false} TupleFits(tys: seq<Ty>, vals: seq<Val>)
    requires |tys| == |vals| && forall i :: 0 <= i < |tys| ==> Matches(tys[i], vals[i])
    ensures TupleMatches(tys, vals)
    ensures forall i :: 0 <= i < |tys| ==>
      TupleParts(tys, vals)[i] == Part(IsDynamic(tys[i]), Enc(tys[i], vals[i]))
  {
    if tys != [] {
      TupleFits(tys[1..], vals[1..]);
      var ps := TupleParts(tys, vals);
      assert ps[1..] == TupleParts(tys[1..], vals[1..]);
      forall i | 0 <= i < |tys| ensures ps[i] == Part(IsDynamic(tys[i]), Enc(tys[i], vals[i])) {
        if i > 0 {
          assert ps[i] == ps[1..][i - 1] && tys[i] == tys[1..][i - 1] && vals[i] == vals[1..][i - 1];
        }
      }
    }
  }

  // Where the emitted words differ from the specified ones

  /** Some element of the argument is a negative number that is not sign-extended. */
  predicate Lossy(t: ArgTy, a: Arg)
    requires Fits(t, a)
  {
    HasElem(t) && !NoneLost(t, a.mems)
  }

  predicate NoneLost(t: ArgTy, mems: seq<seq<byte>>)
    requires HasElem(t) && ElemsFit(t.e, mems)
  {
    mems == [] || (!SignLost(UseOf(t), t.e, mems[0]) && NoneLost(t, mems[1..]))
  }

  lemma {:induction false} WordValsAgree(t: ArgTy, mems: seq<seq<byte>>)
    requires HasElem(t) && ElemsFit(t.e, mems)
    ensures WordVals(t, mems, false) == WordVals(t, mems, true) <==> NoneLost(t, mems)
  {
    if mems != [] {
      WordValsAgree(t, mems[1..]);
      FirstWord(t, mems);
    }
  }

  lemma FirstWord(t: ArgTy, mems: seq<seq<byte>>)
    requires HasElem(t) && ElemsFit(t.e, mems) && mems != []
    ensures WordVals(t, mems, false) == WordVals(t, mems, true) <==>
      !SignLost(UseOf(t), t.e, mems[0]) && WordVals(t, mems[1..], false) == WordVals(t, mems[1..], true)
  {
    var a, b := WordVals(t, mems, false), WordVals(t, mems, true);
    WordCorrect(UseOf(t), t.e, mems[0]);
    SameCons(a, b);
    assert a[1..] == WordVals(t, mems[1..], false) && b[1..] == WordVals(t, mems[1..], true);
  }

  lemma SameCons(a: seq<Val>, b: seq<Val>)
    requires a != [] && b != []
    ensures a == b <==> a[0] == b[0] && a[1..] == b[1..]
  {
    assert a == [a[0]] + a[1..] && b == [b[0]] + b[1..];
  }

  /** The value that is sent is the one that was meant exactly when no sign is lost. */
  lemma ValAgrees(t: ArgTy, a: Arg)
    requires Fits(t, a)
    ensures ValOf(t, a, false) == ValOf(t, a, true) <==> !Lossy(t, a)
  {
    if HasElem(t) {
      WordValsAgree(t, a.mems);
      if t.Scalar? {
        assert a.mems == [a.mems[0]];
        WordCorrect(Single, t.e, a.mems[0]);
      }
    }
  }

  lemma ValsAgree(ts: seq<ArgTy>, args: seq<Arg>)
    requires AllFit(ts, args)
    ensures ValsOf(ts, args, false) == ValsOf(ts, args, true) <==>
      forall i :: 0 <= i < |ts| ==> !Lossy(ts[i], args[i])
  {
    var a, b := ValsOf(ts, args, false), ValsOf(ts, args, true);
    forall i | 0 <= i < |ts| ensures a[i] == b[i] <==> !Lossy(ts[i], args[i]) {
      ValAgrees(ts[i], args[i]);
    }
    if forall i :: 0 <= i < |ts| ==> !Lossy(ts[i], args[i]) {
      assert forall i :: 0 <= i < |ts| ==> a[i] == b[i];
    }
  }
}
