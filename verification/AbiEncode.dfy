/** What one argument's statements write is its encoding in the Contract ABI Specification. */
module AbiEncode {
  import opened Bytes
  import opened AbiSpec
  import opened AbiWords
  import opened AbiArgs
  import opened AbiGen
  import opened AbiRun

  /** Without overflow, BOAT_ROUNDUP rounds up, also for 0. */
  lemma RoundupPads(v: nat)
    requires Padded(v) < U32
    ensures Roundup(v) == Padded(v)
  {
    if v > 0 {
      assert (v + U32 - 1) % U32 == v - 1;
      assert (v - 1) / 32 + 1 == (v + 31) / 32;
    }
  }

  // Byte strings

  lemma BlobEnc(b: seq<byte>)
    requires WORD + Padded(|b|) < U32
    ensures Matches(Blob, BlobV(b)) && Enc(Blob, BlobV(b)) == NumberWord(|b|) + Padding(b)
    ensures Rounds(b) && SpaceFor(b) == WORD + Padded(|b|)
  {
    RoundupPads(|b|);
    PaddingPads(b);
  }

  lemma PaddingPads(b: seq<byte>)
    requires Rounds(b) && Roundup(|b|) == Padded(|b|)
    ensures Padding(b) == PadRight(b)
  {
  }

  /** The parts of an array of byte strings. */
  function BlobParts(bs: seq<seq<byte>>): (ps: seq<Part>)
    requires Short(bs)
    ensures |ps| == |bs|
  {
    BlobsMatch(bs);
    Parts(Blob, BlobVals(bs))
  }

  lemma BlobPartsCons(bs: seq<seq<byte>>)
    requires bs != [] && Short(bs)
    ensures BlobParts(bs)[0] == Part(true, Enc(Blob, BlobV(bs[0])))
    ensures BlobParts(bs)[1..] == BlobParts(bs[1..])
  {
    BlobsMatch(bs);
    assert BlobVals(bs)[1..] == BlobVals(bs[1..]);
  }

  lemma {:induction false} BlobHeadsLen(bs: seq<seq<byte>>)
    requires Short(bs)
    ensures HeadsLen(BlobParts(bs)) == WORD * |bs|
  {
    if bs != [] {
      BlobPartsCons(bs);
      BlobHeadsLen(bs[1..]);
    }
  }

  lemma {:induction false} SumCons(ns: seq<nat>, n: nat)
    requires 0 < n <= |ns|
    ensures SumOf(ns, n) == ns[0] + SumOf(ns[1..], n - 1)
  {
    if n > 1 {
      SumCons(ns, n - 1);
    }
  }

  lemma SpacesCons(bs: seq<seq<byte>>)
    requires bs != []
    ensures Spaces(bs)[0] == SpaceFor(bs[0]) && Spaces(bs)[1..] == Spaces(bs[1..])
  {
  }

  lemma SumStep(bs: seq<seq<byte>>)
    requires bs != []
    ensures Spaces(bs)[0] == SpaceFor(bs[0]) && Spaces(bs)[1..] == Spaces(bs[1..])
    ensures SumOf(Spaces(bs), |bs|) == SpaceFor(bs[0]) + SumOf(Spaces(bs[1..]), |bs| - 1)
  {
    SpacesCons(bs);
    SumRest(Spaces(bs), SpaceFor(bs[0]), Spaces(bs[1..]));
  }

  lemma SumRest(ns: seq<nat>, first: nat, rest: seq<nat>)
    requires ns != [] && ns[0] == first && ns[1..] == rest
    ensures SumOf(ns, |ns|) == first + SumOf(rest, |rest|)
  {
    SumCons(ns, |ns|);
  }

  /** No padded element overflows. */
  predicate Roomy(bs: seq<seq<byte>>) {
    bs == [] || (WORD + Padded(|bs[0]|) < U32 && Roomy(bs[1..]))
  }

  /** The tails are the elements in order, and their measured lengths add up to the tails. */
  lemma {:induction false} BlobTails(bs: seq<seq<byte>>)
    requires Short(bs) && |Tails(BlobParts(bs))| < U32
    ensures Roomy(bs)
    ensures AllRound(bs) && Tails(BlobParts(bs)) == BlobsOf(bs)
    ensures SumOf(Spaces(bs), |bs|) == |Tails(BlobParts(bs))|
  {
    if bs != [] {
      BlobPartsCons(bs);
      BlobTails(bs[1..]);
      BlobEnc(bs[0]);
      SumStep(bs);
    }
  }

  lemma NoWrap(v: nat)
    requires v < U32
    ensures v % U32 == v
  {
  }

  lemma OffsetsStep(filled: seq<nat>, at: nat)
    requires filled != [] && at + filled[0] < U32
    ensures OffsetsOf(filled, at) == BigEndian(WORD, at) + OffsetsOf(filled[1..], at + filled[0])
  {
    NoWrap(at + filled[0]);
  }

  lemma HeadsStep(bs: seq<seq<byte>>, at: nat)
    requires bs != [] && Short(bs) && WORD + Padded(|bs[0]|) < U32
    ensures Heads(BlobParts(bs), at) == BigEndian(WORD, at) + Heads(BlobParts(bs[1..]), at + SpaceFor(bs[0]))
  {
    BlobPartsCons(bs);
    BlobEnc(bs[0]);
  }

  /** The inner offsets are the heads: each points to its element. */
  lemma {:induction false} BlobHeads(bs: seq<seq<byte>>, at: nat)
    requires Short(bs) && at + SumOf(Spaces(bs), |bs|) < U32
    requires Roomy(bs)
    ensures OffsetsOf(Spaces(bs), at) == Heads(BlobParts(bs), at)
  {
    if bs != [] {
      SumStep(bs);
      HeadsStep(bs, at);
      OffsetsStep(Spaces(bs), at);
      BlobHeads(bs[1..], at + SpaceFor(bs[0]));
    }
  }

  lemma Assembled(ps: seq<Part>, heads: seq<byte>, tails: seq<byte>)
    requires Heads(ps, HeadsLen(ps)) == heads && Tails(ps) == tails
    ensures Assemble(ps) == heads + tails
  {
  }

  lemma AssembledLen(ps: seq<Part>)
    ensures |Assemble(ps)| == HeadsLen(ps) + |Tails(ps)|
  {
  }

  /** Inner offsets and elements of bytes[k] or bytes[]. */
  lemma BlobsWritten(bs: seq<seq<byte>>, n: nat)
    requires Short(bs) && |Assemble(BlobParts(bs))| < U32 && n == WORD * |bs|
    ensures AllRound(bs) && n < U32
    ensures Assemble(BlobParts(bs)) == OffsetsOf(Spaces(bs), n) + BlobsOf(bs)
    ensures |Assemble(BlobParts(bs))| == n + SumOf(Spaces(bs), |bs|)
  {
    var ps := BlobParts(bs);
    BlobHeadsLen(bs);
    AssembledLen(ps);
    BlobTails(bs);
    BlobHeads(bs, n);
    Assembled(ps, OffsetsOf(Spaces(bs), n), BlobsOf(bs));
  }

  // Words

  function WordParts(t: ArgTy, mems: seq<seq<byte>>): (ps: seq<Part>)
    requires HasElem(t) && ElemsFit(t.e, mems)
    ensures |ps| == |mems|
  {
    WordsMatch(t, mems, false);
    Parts(Word, WordVals(t, mems, false))
  }

  lemma WordPartsCons(t: ArgTy, mems: seq<seq<byte>>)
    requires HasElem(t) && ElemsFit(t.e, mems) && mems != []
    ensures WordParts(t, mems)[0] == Part(false, EmittedWord(UseOf(t), t.e, mems[0]))
    ensures WordParts(t, mems)[1..] == WordParts(t, mems[1..])
  {
    WordsMatch(t, mems, false);
    var vs := WordVals(t, mems, false);
    assert vs[1..] == WordVals(t, mems[1..], false);
    assert Matches(Word, vs[0]) && Enc(Word, vs[0]) == vs[0].w == EmittedWord(UseOf(t), t.e, mems[0]);
  }

  lemma {:induction false} WordsWritten(t: ArgTy, mems: seq<seq<byte>>, at: nat)
    requires HasElem(t) && ElemsFit(t.e, mems)
    ensures Heads(WordParts(t, mems), at) == WordsOf(UseOf(t), t.e, mems)
    ensures Tails(WordParts(t, mems)) == []
    ensures |WordsOf(UseOf(t), t.e, mems)| == WORD * |mems|
  {
    if mems != [] {
      WordPartsCons(t, mems);
      WordsWritten(t, mems[1..], at);
    }
  }

  // Arguments

  function EncOf(t: ArgTy, a: Arg): seq<byte>
    requires Fits(t, a)
  {
    Enc(TyOf(t), ValOf(t, a, false))
  }

  lemma DynamicTypes(t: ArgTy)
    ensures IsDynamic(TyOf(t)) <==> HasTail(t)
  {
  }

  lemma WordsEnc(t: ArgTy, a: Arg)
    requires Fits(t, a) && HasElem(t)
    ensures var ws := WordsOf(UseOf(t), t.e, a.mems);
      EncOf(t, a) == (if t.DynArray? then BigEndian(WORD, |a.mems|) + ws else ws)
      && |ws| == WORD * |a.mems|
  {
    var ps := WordParts(t, a.mems);
    WordsWritten(t, a.mems, HeadsLen(ps));
    if t.Scalar? {
      assert WordsOf(Single, t.e, a.mems) == EmittedWord(Single, t.e, a.mems[0]) + [];
    } else {
      WordsMatch(t, a.mems, false);
      assert Assemble(ps) == WordsOf(UseOf(t), t.e, a.mems) + [];
    }
  }

  lemma BytesEnc(t: ArgTy, a: Arg)
    requires Fits(t, a) && t.Bytes? && |EncOf(t, a)| < U32
    ensures Rounds(a.b) && EncOf(t, a) == NumberWord(|a.b|) + Padding(a.b)
    ensures SpaceFor(a.b) == |EncOf(t, a)|
  {
    BlobEnc(a.b);
  }

  lemma BlobsEnc(t: ArgTy, a: Arg)
    requires Fits(t, a) && IsBlobs(t) && |EncOf(t, a)| < U32
    ensures AllRound(a.bs) && |a.bs| * 32 < U32
    ensures var own := OffsetsOf(Spaces(a.bs), |a.bs| * 32 % U32) + BlobsOf(a.bs);
      EncOf(t, a) == (if t.BytesArray? then NumberWord(|a.bs|) + own else own)
    ensures |EncOf(t, a)| == SumOf(Spaces(a.bs), |a.bs|) + |a.bs| * 32 + (if t.BytesArray? then 32 else 0)
  {
    var heads := |a.bs| * 32;
    BlobsMatch(a.bs);
    BlobsWritten(a.bs, heads);
    NoWrap(heads);
    assert heads % U32 == heads;
  }

  lemma BlobsSize(t: ArgTy, a: Arg)
    requires Fits(t, a) && IsBlobs(t) && |EncOf(t, a)| < U32
    ensures |EncOf(t, a)| == SumOf(Spaces(a.bs), |a.bs|) + |a.bs| * 32 + (if t.BytesArray? then 32 else 0)
  {
    BlobsEnc(t, a);
  }

  /** The head of a static argument is its encoding. */
  lemma StaticEnc(t: ArgTy, a: Arg)
    requires Fits(t, a) && !HasTail(t)
    ensures |EncOf(t, a)| == 32 * (if t.FixedArray? then t.k else 1)
    ensures EncOf(t, a) == WordsOf(UseOf(t), t.e, a.mems)
  {
    WordsEnc(t, a);
  }
}
