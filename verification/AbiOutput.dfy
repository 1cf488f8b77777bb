/** The writing pass produces the encoding of the Contract ABI Specification. */
module AbiOutput {
  import opened Bytes
  import opened AbiSpec
  import opened AbiWords
  import opened AbiArgs
  import opened AbiGen
  import opened AbiRun
  import opened AbiEncode
  import opened AbiProgram

  // Offsets

  /** After measuring, the offset terms of the first n arguments add up to their tails. */
  lemma {:induction false} OffsetTermsSum(ts: seq<ArgTy>, args: seq<Arg>, ps: seq<Part>, n: nat, locals: seq<Local>)
    requires Good(ts, args, ps, n) && |locals| == |args| && LocalsMeasured(ts, args, ps, locals, n)
    ensures TermSum(OffsetTerms(ts, n), args, locals) == TailLenTo(ps, n)
  {
    if n > 0 {
      var t, p := ts[n - 1], ps[n - 1];
      OffsetTermsSum(ts, args, ps, n - 1, locals);
      PartKind(t, args[n - 1], p);
      if IsMeasured(t) {
        SumMore(OffsetTerms(ts, n - 1), DataLength(n - 1), args, locals);
      } else if t.Bytes? {
        SpaceAdded(t, args, p, OffsetTerms(ts, n - 1), n - 1, locals);
      }
    }
  }

  /** The offset written for an argument is where its tail starts: behind all heads and the
      tails of the arguments before it. */
  lemma OffsetIsExact(ts: seq<ArgTy>, args: seq<Arg>, ps: seq<Part>, index: nat, locals: seq<Local>, at: nat)
    requires Good(ts, args, ps, |ts|) && |locals| == |args| && index <= |ts|
    requires LocalsMeasured(ts, args, ps, locals, |ts|)
    requires at == HeadLenTo(ps, |ps|) + TailLenTo(ps, index) < U32
    ensures Value(OffsetSum(ts, index), args, locals) == at
  {
    GoodTo(ts, args, ps, index, |ts|);
    LocalsMeasuredTo(ts, args, ps, locals, index, |ts|);
    OffsetTermsSum(ts, args, ps, index, locals);
    HeadsAreCounted(ts, args, ps, |ts|);
    SumValue(OffsetSum(ts, index), args, locals, at);
  }

  // Heads and tails of the first n parts

  /** The head of a part whose tail, if it has one, starts at `at`. */
  function HeadOctets(p: Part, at: nat): seq<byte> {
    if p.dynamic then BigEndian(WORD, at) else p.enc
  }

  function HeadsTo(ps: seq<Part>, n: nat, at: nat): seq<byte>
    requires n <= |ps|
  {
    if n == 0 then [] else HeadsTo(ps, n - 1, at) + HeadOctets(ps[n - 1], at + TailLenTo(ps, n - 1))
  }

  function TailOctets(p: Part): seq<byte> {
    if p.dynamic then p.enc else []
  }

  function TailsTo(ps: seq<Part>, n: nat): seq<byte>
    requires n <= |ps|
  {
    if n == 0 then [] else TailsTo(ps, n - 1) + TailOctets(ps[n - 1])
  }

  lemma {:induction false} LengthsTo(ps: seq<Part>, n: nat, at: nat)
    requires n <= |ps|
    ensures |HeadsTo(ps, n, at)| == HeadLenTo(ps, n) && |TailsTo(ps, n)| == TailLenTo(ps, n)
  {
    if n > 0 {
      LengthsTo(ps, n - 1, at);
    }
  }

  /** Heads and tails from part i on. */
  function HeadsFrom(ps: seq<Part>, i: nat, at: nat): seq<byte>
    requires i <= |ps|
    decreases |ps| - i
  {
    if i == |ps| then [] else HeadOctets(ps[i], at) + HeadsFrom(ps, i + 1, at + TailLen(ps[i]))
  }

  function TailsFrom(ps: seq<Part>, i: nat): seq<byte>
    requires i <= |ps|
    decreases |ps| - i
  {
    if i == |ps| then [] else TailOctets(ps[i]) + TailsFrom(ps, i + 1)
  }

  lemma {:induction false} HeadsFromIs(ps: seq<Part>, i: nat, at: nat)
    requires i <= |ps|
    ensures HeadsFrom(ps, i, at) == Heads(ps[i..], at)
    decreases |ps| - i
  {
    if i < |ps| {
      HeadsFromIs(ps, i + 1, at + TailLen(ps[i]));
      HeadsCons(ps[i..], at, ps[i], ps[i + 1..]);
    }
  }

  lemma HeadsCons(ps: seq<Part>, at: nat, first: Part, rest: seq<Part>)
    requires ps == [first] + rest
    ensures Heads(ps, at) == HeadOctets(first, at) + Heads(rest, at + TailLen(first))
    ensures Tails(ps) == TailOctets(first) + Tails(rest) && HeadsLen(ps) == HeadLen(first) + HeadsLen(rest)
  {
    assert ps[1..] == rest;
  }

  lemma {:induction false} TailsFromIs(ps: seq<Part>, i: nat)
    requires i <= |ps|
    ensures TailsFrom(ps, i) == Tails(ps[i..])
    ensures HeadLenTo(ps, i) + HeadsLen(ps[i..]) == HeadLenTo(ps, |ps|)
    decreases |ps| - i
  {
    if i < |ps| {
      TailsFromIs(ps, i + 1);
      HeadsCons(ps[i..], 0, ps[i], ps[i + 1..]);
    }
  }

  lemma Glue(whole: seq<byte>, done: seq<byte>, rest: seq<byte>, piece: seq<byte>, tail: seq<byte>, next: seq<byte>)
    requires whole == done + rest && rest == piece + tail && next == done + piece
    ensures whole == next + tail
  {
    ConcatAssoc(done, piece, tail);
  }

  /** Heads cut at part n. */
  lemma {:induction false} HeadsCut(ps: seq<Part>, n: nat, at: nat, next: nat)
    requires n <= |ps| && next == at + TailLenTo(ps, n)
    ensures HeadsFrom(ps, 0, at) == HeadsTo(ps, n, at) + HeadsFrom(ps, n, next)
  {
    if n == 0 {
      assert [] + HeadsFrom(ps, 0, at) == HeadsFrom(ps, 0, at);
    } else {
      var i, x := n - 1, at + TailLenTo(ps, n - 1);
      HeadsCut(ps, i, at, x);
      assert next == x + TailLen(ps[i]);
      Glue(HeadsFrom(ps, 0, at), HeadsTo(ps, i, at), HeadsFrom(ps, i, x), HeadOctets(ps[i], x), HeadsFrom(ps, n, next), HeadsTo(ps, n, at));
    }
  }

  lemma TailsNext(ps: seq<Part>, i: nat, n: nat)
    requires n == i + 1 <= |ps|
    ensures TailsTo(ps, n) == TailsTo(ps, i) + TailOctets(ps[i])
    ensures TailsFrom(ps, i) == TailOctets(ps[i]) + TailsFrom(ps, n)
  {
  }

  lemma {:induction false} TailsCut(ps: seq<Part>, n: nat)
    requires n <= |ps|
    ensures TailsFrom(ps, 0) == TailsTo(ps, n) + TailsFrom(ps, n)
  {
    if n == 0 {
      assert [] + TailsFrom(ps, 0) == TailsFrom(ps, 0);
    } else {
      var i := n - 1;
      TailsCut(ps, i);
      TailsNext(ps, i, n);
      Glue(TailsFrom(ps, 0), TailsTo(ps, i), TailsFrom(ps, i), TailOctets(ps[i]), TailsFrom(ps, n), TailsTo(ps, n));
    }
  }

  lemma AssembledTo(ps: seq<Part>, at: nat)
    ensures Heads(ps, at) == HeadsTo(ps, |ps|, at) && Tails(ps) == TailsTo(ps, |ps|)
    ensures HeadsLen(ps) == HeadLenTo(ps, |ps|)
  {
    HeadsCut(ps, |ps|, at, at + TailLenTo(ps, |ps|));
    TailsCut(ps, |ps|);
    HeadsFromIs(ps, 0, at);
    TailsFromIs(ps, 0);
    assert ps[0..] == ps;
  }

  // Writing

  lemma {:induction false} WritePrefix(ws: seq<Write>, w: Write, n: nat, args: seq<Arg>, locals: seq<Local>)
    requires |locals| == |args| && n <= |ws|
    ensures LocalsAfter(ws + [w], n, args, locals) == LocalsAfter(ws, n, args, locals)
    ensures Written(ws + [w], n, args, locals) == Written(ws, n, args, locals)
    ensures WritesOk(ws + [w], n, args) <==> WritesOk(ws, n, args)
  {
    if n > 0 {
      WritePrefix(ws, w, n - 1, args, locals);
    }
  }

  /** The statements ws fit, append `out` and leave the local variables `after`. */
  ghost predicate Does(ws: seq<Write>, args: seq<Arg>, locals: seq<Local>, out: seq<byte>, after: seq<Local>)
    requires |locals| == |args|
  {
    && WritesOk(ws, |ws|, args)
    && Written(ws, |ws|, args, locals) == out
    && LocalsAfter(ws, |ws|, args, locals) == after
  }

  lemma DoesMore(ws: seq<Write>, w: Write, args: seq<Arg>, locals: seq<Local>, out: seq<byte>,
                 after: seq<Local>, piece: seq<byte>)
    requires |locals| == |args| == |after| && Does(ws, args, locals, out, after)
    requires WriteOk(w, args) && Emit(w, args, after) == piece
    ensures Does(ws + [w], args, locals, out + piece, After(w, args, after))
  {
    WritePrefix(ws, w, |ws|, args, locals);
  }

  /** A statement that changes no local variable. */
  lemma DoesNext(ws: seq<Write>, w: Write, args: seq<Arg>, locals: seq<Local>, out: seq<byte>, piece: seq<byte>,
                 next: seq<Write>, nextOut: seq<byte>)
    requires |locals| == |args| && Does(ws, args, locals, out, locals)
    requires WriteOk(w, args) && Emit(w, args, locals) == piece && !w.InnerBlobs?
    requires next == ws + [w] && nextOut == out + piece
    ensures Does(next, args, locals, nextOut, locals)
  {
    DoesMore(ws, w, args, locals, out, locals, piece);
  }

  // Heads

  /** The statement of a head with a tail writes the offset. */
  lemma OffsetWritten(ts: seq<ArgTy>, args: seq<Arg>, i: nat, locals: seq<Local>, at: nat)
    requires i < |ts| && |args| == |locals| && HasTail(ts[i])
    requires TermsOk(OffsetTerms(ts, i), args) && Value(OffsetSum(ts, i), args, locals) == at
    ensures WriteOk(HeadOf(ts, i), args) && Emit(HeadOf(ts, i), args, locals) == BigEndian(WORD, at)
  {
  }

  /** The statement of any other head writes the encoding. */
  lemma ValueWritten(ts: seq<ArgTy>, args: seq<Arg>, i: nat, locals: seq<Local>)
    requires i < |ts| == |args| == |locals| && Fits(ts[i], args[i]) && !HasTail(ts[i])
    ensures WriteOk(HeadOf(ts, i), args) && Emit(HeadOf(ts, i), args, locals) == EncOf(ts[i], args[i])
  {
    StaticEnc(ts[i], args[i]);
    assert Elements(args[i], HeadOf(ts, i).count) == args[i].mems;
  }

  lemma HeadWritten(ts: seq<ArgTy>, args: seq<Arg>, ps: seq<Part>, i: nat, locals: seq<Local>, at: nat)
    requires Good(ts, args, ps, |ts|) && |locals| == |args| && i < |ts|
    requires LocalsMeasured(ts, args, ps, locals, |ts|)
    requires at == HeadLenTo(ps, |ps|) + TailLenTo(ps, i) < U32
    ensures WriteOk(HeadOf(ts, i), args)
    ensures Emit(HeadOf(ts, i), args, locals) == HeadOctets(ps[i], at)
  {
    PartAt(ts, args, ps, |ts|, i);
    if HasTail(ts[i]) {
      OffsetIsExact(ts, args, ps, i, locals, at);
      SizeTermsOk(ts, args, i);
      OffsetWritten(ts, args, i, locals, at);
    } else {
      ValueWritten(ts, args, i, locals);
    }
  }

  lemma HeadsKeepLocals(ts: seq<ArgTy>, i: nat)
    requires i < |ts|
    ensures !HeadOf(ts, i).InnerBlobs?
  {
  }

  lemma HeadsSnoc(ts: seq<ArgTy>, ps: seq<Part>, n: nat, h: nat)
    requires 0 < n <= |ts| == |ps|
    ensures HeadWrites(ts, n) == HeadWrites(ts, n - 1) + [HeadOf(ts, n - 1)]
    ensures HeadsTo(ps, n, h) == HeadsTo(ps, n - 1, h) + HeadOctets(ps[n - 1], h + TailLenTo(ps, n - 1))
  {
  }

  /** All heads. */
  lemma {:induction false} HeadsWritten(ts: seq<ArgTy>, args: seq<Arg>, ps: seq<Part>, n: nat, locals: seq<Local>, h: nat)
    requires Good(ts, args, ps, |ts|) && |locals| == |args| && n <= |ts|
    requires LocalsMeasured(ts, args, ps, locals, |ts|)
    requires h == HeadLenTo(ps, |ps|) && h + TailLenTo(ps, |ps|) < U32
    ensures Does(HeadWrites(ts, n), args, locals, HeadsTo(ps, n, h), locals)
  {
    if n == 0 {
      NothingDone(args, locals);
    } else {
      var i, at := n - 1, h + TailLenTo(ps, n - 1);
      HeadsWritten(ts, args, ps, i, locals, h);
      HeadsSnoc(ts, ps, n, h);
      HeadNext(ts, args, ps, i, locals, at, HeadWrites(ts, i), HeadsTo(ps, i, h), HeadWrites(ts, n), HeadsTo(ps, n, h));
    }
  }

  lemma NothingDone(args: seq<Arg>, locals: seq<Local>)
    requires |locals| == |args|
    ensures Does([], args, locals, [], locals)
  {
  }

  /** One more head, behind those already written. */
  lemma HeadNext(ts: seq<ArgTy>, args: seq<Arg>, ps: seq<Part>, i: nat, locals: seq<Local>, at: nat,
                 ws: seq<Write>, out: seq<byte>, next: seq<Write>, nextOut: seq<byte>)
    requires Good(ts, args, ps, |ts|) && |locals| == |args| && i < |ts|
    requires LocalsMeasured(ts, args, ps, locals, |ts|)
    requires at == HeadLenTo(ps, |ps|) + TailLenTo(ps, i) && HeadLenTo(ps, |ps|) + TailLenTo(ps, |ps|) < U32
    requires Does(ws, args, locals, out, locals)
    requires next == ws + [HeadOf(ts, i)] && nextOut == out + HeadOctets(ps[i], at)
    ensures Does(next, args, locals, nextOut, locals)
  {
    TailGrows(ps, i, |ps|);
    HeadWritten(ts, args, ps, i, locals, at);
    HeadsKeepLocals(ts, i);
    DoesNext(ws, HeadOf(ts, i), args, locals, out, HeadOctets(ps[i], at), next, nextOut);
  }

  // Tails

  /** Two statements, of which the first changes no local variable. */
  lemma DoesTwo(ws: seq<Write>, a: Write, b: Write, args: seq<Arg>, start: seq<Local>, out: seq<byte>, after: seq<Local>,
                x: seq<byte>, y: seq<byte>)
    requires |start| == |args| == |after| && Does(ws, args, start, out, after)
    requires WriteOk(a, args) && Emit(a, args, after) == x && !a.InnerBlobs?
    requires WriteOk(b, args) && Emit(b, args, after) == y
    ensures Does(ws + [a, b], args, start, out + (x + y), After(b, args, after))
  {
    DoesMore(ws, a, args, start, out, after, x);
    DoesMore(ws + [a], b, args, start, out + x, after, y);
    assert ws + [a] + [b] == ws + [a, b];
    ConcatAssoc(out, x, y);
  }

  lemma LengthEmits(args: seq<Arg>, locals: seq<Local>, i: nat)
    requires |locals| == |args| && i < |args|
    ensures WriteOk(Length(i), args) && Emit(Length(i), args, locals) == NumberWord(LenOf(args[i]))
  {
  }

  /** bytes and string. */
  lemma BytesTail(t: ArgTy, args: seq<Arg>, i: nat, locals: seq<Local>)
    requires |locals| == |args| && i < |args| && t.Bytes? && Fits(t, args[i]) && |EncOf(t, args[i])| < U32
    ensures WriteOk(Payload(i), args)
    ensures NumberWord(LenOf(args[i])) + Emit(Payload(i), args, locals) == EncOf(t, args[i])
  {
    BytesEnc(t, args[i]);
  }

  /** T[]. */
  lemma WordsTail(t: ArgTy, args: seq<Arg>, i: nat, locals: seq<Local>, w: Write)
    requires |locals| == |args| && i < |args| && t.DynArray? && Fits(t, args[i]) && w == Words(i, InDynamic, t.e, Len)
    ensures WriteOk(w, args) && NumberWord(LenOf(args[i])) + Emit(w, args, locals) == EncOf(t, args[i])
  {
    WordsEnc(t, args[i]);
    assert Elements(args[i], Len) == args[i].mems;
  }

  /** Elements of bytes[], string[], bytes[k] and string[k], whose offsets come from the lengths
      that were measured and are not overwritten yet. */
  lemma BlobsTail(t: ArgTy, args: seq<Arg>, i: nat, locals: seq<Local>)
    requires |locals| == |args| && i < |args| && IsBlobs(t) && Fits(t, args[i]) && |EncOf(t, args[i])| < U32
    requires locals[i].filled == Spaces(args[i].bs)
    ensures WriteOk(InnerOffsets(i), args) && WriteOk(InnerBlobs(i), args)
    ensures var own := Emit(InnerOffsets(i), args, locals) + Emit(InnerBlobs(i), args, locals);
      EncOf(t, args[i]) == if t.BytesArray? then NumberWord(LenOf(args[i])) + own else own
  {
    BlobsEnc(t, args[i]);
  }

  /** Offsets and elements, with `own` what they append. */
  lemma InnerStep(args: seq<Arg>, i: nat, start: seq<Local>, ws: seq<Write>, out: seq<byte>, before: seq<Local>, own: seq<byte>)
    returns (after: seq<Local>)
    requires |start| == |args| == |before| && i < |args| && Does(ws, args, start, out, before)
    requires WriteOk(InnerOffsets(i), args) && WriteOk(InnerBlobs(i), args)
    requires own == Emit(InnerOffsets(i), args, before) + Emit(InnerBlobs(i), args, before)
    ensures |after| == |args| && Does(ws + [InnerOffsets(i), InnerBlobs(i)], args, start, out + own, after)
    ensures forall j :: 0 <= j < |args| && j != i ==> after[j] == before[j]
  {
    after := After(InnerBlobs(i), args, before);
    DoesTwo(ws, InnerOffsets(i), InnerBlobs(i), args, start, out, before,
      Emit(InnerOffsets(i), args, before), Emit(InnerBlobs(i), args, before));
  }

  lemma LengthStep(args: seq<Arg>, i: nat, start: seq<Local>, ws: seq<Write>, out: seq<byte>, before: seq<Local>)
    requires |start| == |args| == |before| && i < |args| && Does(ws, args, start, out, before)
    ensures Does(ws + [Length(i)], args, start, out + NumberWord(LenOf(args[i])), before)
  {
    LengthEmits(args, before, i);
    DoesMore(ws, Length(i), args, start, out, before, NumberWord(LenOf(args[i])));
  }

  lemma BlobsStep(t: ArgTy, args: seq<Arg>, i: nat, start: seq<Local>, ws: seq<Write>, out: seq<byte>, before: seq<Local>)
    returns (after: seq<Local>)
    requires |start| == |args| == |before| && i < |args| && Does(ws, args, start, out, before)
    requires IsBlobs(t) && Fits(t, args[i]) && |EncOf(t, args[i])| < U32 && before[i].filled == Spaces(args[i].bs)
    ensures |after| == |args| && Does(ws + TailOf(t, i), args, start, out + EncOf(t, args[i]), after)
    ensures forall j :: 0 <= j < |args| && j != i ==> after[j] == before[j]
  {
    BlobsTail(t, args, i, before);
    var own := Emit(InnerOffsets(i), args, before) + Emit(InnerBlobs(i), args, before);
    if t.BytesFixedArray? {
      after := InnerStep(args, i, start, ws, out, before, own);
    } else {
      var len := NumberWord(LenOf(args[i]));
      LengthStep(args, i, start, ws, out, before);
      after := InnerStep(args, i, start, ws + [Length(i)], out + len, before, own);
      Snoc(ws, [Length(i)], [InnerOffsets(i), InnerBlobs(i)], TailOf(t, i));
      Snoc(out, len, own, EncOf(t, args[i]));
    }
  }

  lemma PlainStep(t: ArgTy, args: seq<Arg>, i: nat, start: seq<Local>, ws: seq<Write>, out: seq<byte>, before: seq<Local>)
    requires |start| == |args| == |before| && i < |args| && Does(ws, args, start, out, before)
    requires (t.Bytes? || t.DynArray?) && Fits(t, args[i]) && |EncOf(t, args[i])| < U32
    ensures Does(ws + TailOf(t, i), args, start, out + EncOf(t, args[i]), before)
  {
    var w := if t.Bytes? then Payload(i) else Words(i, InDynamic, t.e, Len);
    if t.Bytes? {
      BytesTail(t, args, i, before);
    } else {
      WordsTail(t, args, i, before, w);
    }
    LengthEmits(args, before, i);
    assert TailOf(t, i) == [Length(i), w];
    DoesTwo(ws, Length(i), w, args, start, out, before, NumberWord(LenOf(args[i])), Emit(w, args, before));
  }

  /** The tail of argument i, written where all other local variables keep their values. */
  lemma TailStep(t: ArgTy, args: seq<Arg>, i: nat, start: seq<Local>, ws: seq<Write>, out: seq<byte>, before: seq<Local>,
                 next: seq<Write>, nextOut: seq<byte>)
    returns (after: seq<Local>)
    requires |start| == |args| == |before| && i < |args| && Does(ws, args, start, out, before)
    requires HasTail(t) && Fits(t, args[i]) && |EncOf(t, args[i])| < U32
    requires IsBlobs(t) ==> before[i].filled == Spaces(args[i].bs)
    requires next == ws + TailOf(t, i) && nextOut == out + EncOf(t, args[i])
    ensures |after| == |args| && Does(next, args, start, nextOut, after)
    ensures forall j :: 0 <= j < |args| && j != i ==> after[j] == before[j]
  {
    if IsBlobs(t) {
      after := BlobsStep(t, args, i, start, ws, out, before);
    } else {
      PlainStep(t, args, i, start, ws, out, before);
      after := before;
    }
  }

  lemma NoTail(t: ArgTy, i: nat, ws: seq<Write>, out: seq<byte>, p: Part)
    requires !HasTail(t) && !p.dynamic
    ensures ws + TailOf(t, i) == ws && out + TailOctets(p) == out
  {
  }

  lemma PartFacts(ts: seq<ArgTy>, args: seq<Arg>, ps: seq<Part>, i: nat)
    requires Good(ts, args, ps, |ts|) && i < |ts|
    ensures IsPart(ts[i], args[i], ps[i]) && TailLen(ps[i]) < U32
  {
    PartAt(ts, args, ps, |ts|, i);
    TailGrows(ps, i + 1, |ps|);
  }

  lemma FilledFact(t: ArgTy, a: Arg, p: Part, l: Local)
    requires Fits(t, a) && IsBlobs(t) && LocalMeasured(t, a, p, l)
    ensures l.filled == Spaces(a.bs)
  {
  }

  /** One more argument; `next` and `nextOut` are the statements and the octets with its tail. */
  lemma ArgumentTail(ts: seq<ArgTy>, args: seq<Arg>, ps: seq<Part>, i: nat, start: seq<Local>, ws: seq<Write>,
                     out: seq<byte>, before: seq<Local>, next: seq<Write>, nextOut: seq<byte>)
    returns (after: seq<Local>)
    requires Good(ts, args, ps, |ts|) && i < |ts| == |start| == |before| && LocalsMeasured(ts, args, ps, start, |ts|)
    requires Does(ws, args, start, out, before) && before[i] == start[i]
    requires next == ws + TailOf(ts[i], i) && nextOut == out + TailOctets(ps[i])
    ensures |after| == |args| && Does(next, args, start, nextOut, after)
    ensures forall j :: 0 <= j < |args| && j != i ==> after[j] == before[j]
  {
    PartFacts(ts, args, ps, i);
    LocalsMeasuredTo(ts, args, ps, start, i, |ts|);
    if HasTail(ts[i]) {
      if IsBlobs(ts[i]) {
        FilledFact(ts[i], args[i], ps[i], start[i]);
      }
      assert TailOctets(ps[i]) == EncOf(ts[i], args[i]);
      after := TailStep(ts[i], args, i, start, ws, out, before, next, nextOut);
    } else {
      NoTail(ts[i], i, ws, out, ps[i]);
      after := before;
    }
  }

  /** All tails, behind the heads hs that write `out`. */
  lemma {:induction false} TailsWritten(ts: seq<ArgTy>, args: seq<Arg>, ps: seq<Part>, n: nat, start: seq<Local>,
                                        hs: seq<Write>, out: seq<byte>)
    returns (after: seq<Local>)
    requires Good(ts, args, ps, |ts|) && n <= |ts| == |start| && LocalsMeasured(ts, args, ps, start, |ts|)
    requires Does(hs, args, start, out, start)
    ensures |after| == |args| && Does(hs + TailWrites(ts, n), args, start, out + TailsTo(ps, n), after)
    ensures forall j :: n <= j < |args| ==> after[j] == start[j]
  {
    if n == 0 {
      after := start;
      assert hs + TailWrites(ts, 0) == hs && out + TailsTo(ps, 0) == out;
    } else {
      var i := n - 1;
      var before := TailsWritten(ts, args, ps, i, start, hs, out);
      TailsSnoc(ts, ps, i, n, hs, out);
      after := ArgumentTail(ts, args, ps, i, start, hs + TailWrites(ts, i), out + TailsTo(ps, i), before,
        hs + TailWrites(ts, n), out + TailsTo(ps, n));
    }
  }

  lemma TailsSnoc(ts: seq<ArgTy>, ps: seq<Part>, i: nat, n: nat, hs: seq<Write>, out: seq<byte>)
    requires n == i + 1 <= |ts| == |ps|
    ensures hs + TailWrites(ts, n) == hs + TailWrites(ts, i) + TailOf(ts[i], i)
    ensures out + TailsTo(ps, n) == out + TailsTo(ps, i) + TailOctets(ps[i])
  {
    Snoc(hs, TailWrites(ts, i), TailOf(ts[i], i), TailWrites(ts, n));
    Snoc(out, TailsTo(ps, i), TailOctets(ps[i]), TailsTo(ps, n));
  }

  lemma Snoc<T>(a: seq<T>, b: seq<T>, c: seq<T>, d: seq<T>)
    requires d == b + c
    ensures a + d == a + b + c
  {
  }

  // The whole program

  /** For every list of supported arguments whose call data fits a BUINT32, the generated program
      is executable, fills its buffer exactly, and outputs the specified encoding. */
  lemma ProgramCorrect(ts: seq<ArgTy>, args: seq<Arg>, ps: seq<Part>, locals: seq<Local>)
    requires Good(ts, args, ps, |ts|) && |locals| == |args| && Unmeasured(locals)
    requires 4 + |Assemble(ps)| < U32
    ensures var p := Compile(ts);
      && ProgramOk(p, args)
      && Output(p, args, locals) == Assemble(ps)
      && Exact(p, args, locals)
  {
    var n, p := |ts|, Compile(ts);
    var h := HeadLenTo(ps, n);
    AssembledTo(ps, h);
    LengthsTo(ps, n, h);
    SizeTermsOk(ts, args, n);
    SizeIsExact(ts, args, ps, locals);
    var measured := MeasuredLocalsOf(ts, args, ps, locals);
    HeadsWritten(ts, args, ps, n, measured, h);
    var after := TailsWritten(ts, args, ps, n, measured, HeadWrites(ts, n), HeadsTo(ps, n, h));
  }

  lemma MeasuredLocalsOf(ts: seq<ArgTy>, args: seq<Arg>, ps: seq<Part>, locals: seq<Local>) returns (measured: seq<Local>)
    requires Good(ts, args, ps, |ts|) && |locals| == |args| && Unmeasured(locals)
    ensures measured == SizedLocals(Compile(ts), args, locals) && |measured| == |ts|
    ensures LocalsMeasured(ts, args, ps, measured, |ts|)
    ensures MeasuresOk(Compile(ts).measures, |Compile(ts).measures|, args)
  {
    measured := SizedLocals(Compile(ts), args, locals);
    AllMeasured(ts, args, ps, |ts|, locals, 0);
    MeasuredUpTo(ts, args, ps, |ts|, locals, measured, |ts|);
  }
}
