/** The generated program as a whole: the three passes agree, and the bytes are the encoding of
    the Contract ABI Specification. */
module AbiProgram {
  import opened AbiSpec
  import opened AbiArgs
  import opened AbiGen
  import opened AbiRun
  import opened AbiEncode

  function PartOf(t: ArgTy, a: Arg): Part
    requires Fits(t, a)
  {
    Part(HasTail(t), EncOf(t, a))
  }

  predicate IsPart(t: ArgTy, a: Arg, p: Part) {
    Fits(t, a) && p == PartOf(t, a)
  }

  /** The first n parts are those of the encoded arguments. */
  predicate AreParts(ts: seq<ArgTy>, args: seq<Arg>, ps: seq<Part>, n: nat)
    requires n <= |ts| == |args| == |ps|
  {
    n == 0 || (AreParts(ts, args, ps, n - 1) && IsPart(ts[n - 1], args[n - 1], ps[n - 1]))
  }

  lemma {:induction false} PartAt(ts: seq<ArgTy>, args: seq<Arg>, ps: seq<Part>, n: nat, i: nat)
    requires i < n <= |ts| == |args| == |ps| && AreParts(ts, args, ps, n)
    ensures IsPart(ts[i], args[i], ps[i])
  {
    if i < n - 1 {
      PartAt(ts, args, ps, n - 1, i);
    }
  }

  /** The first n arguments have encodings, and their tails fit a BUINT32. */
  predicate Good(ts: seq<ArgTy>, args: seq<Arg>, ps: seq<Part>, n: nat) {
    n <= |ts| == |args| == |ps| && AreParts(ts, args, ps, n) && TailLenTo(ps, n) < U32
  }

  // Sizes of the first n parts

  function HeadLenTo(ps: seq<Part>, n: nat): nat
    requires n <= |ps|
  {
    if n == 0 then 0 else HeadLenTo(ps, n - 1) + HeadLen(ps[n - 1])
  }

  function TailLen(p: Part): nat {
    if p.dynamic then |p.enc| else 0
  }

  function TailLenTo(ps: seq<Part>, n: nat): nat
    requires n <= |ps|
  {
    if n == 0 then 0 else TailLenTo(ps, n - 1) + TailLen(ps[n - 1])
  }

  /** Tails whose length is in the size expression, and those added by measuring. */
  function BytesLenTo(ts: seq<ArgTy>, ps: seq<Part>, n: nat): nat
    requires n <= |ts| == |ps|
  {
    if n == 0 then 0 else BytesLenTo(ts, ps, n - 1) + (if ts[n - 1].Bytes? then |ps[n - 1].enc| else 0)
  }

  function MeasuredLenTo(ts: seq<ArgTy>, ps: seq<Part>, n: nat): nat
    requires n <= |ts| == |ps|
  {
    if n == 0 then 0 else MeasuredLenTo(ts, ps, n - 1) + (if IsMeasured(ts[n - 1]) then |ps[n - 1].enc| else 0)
  }

  lemma {:induction false} TailGrows(ps: seq<Part>, m: nat, n: nat)
    requires m <= n <= |ps|
    ensures TailLenTo(ps, m) <= TailLenTo(ps, n)
  {
    if m < n {
      TailGrows(ps, m, n - 1);
    }
  }

  lemma {:induction false} GoodTo(ts: seq<ArgTy>, args: seq<Arg>, ps: seq<Part>, m: nat, n: nat)
    requires Good(ts, args, ps, n) && m <= n
    ensures Good(ts, args, ps, m)
  {
    if m < n {
      GoodTo(ts, args, ps, m, n - 1);
    }
  }

  lemma {:induction false} TailsAreCounted(ts: seq<ArgTy>, args: seq<Arg>, ps: seq<Part>, n: nat)
    requires Good(ts, args, ps, n)
    ensures TailLenTo(ps, n) == BytesLenTo(ts, ps, n) + MeasuredLenTo(ts, ps, n)
  {
    if n > 0 {
      TailsAreCounted(ts, args, ps, n - 1);
      PartKind(ts[n - 1], args[n - 1], ps[n - 1]);
    }
  }

  /** What a part contributes to the heads and to the tails. */
  lemma PartKind(t: ArgTy, a: Arg, p: Part)
    requires IsPart(t, a, p)
    ensures HeadLen(p) == 32 * (if t.FixedArray? then t.k else 1)
    ensures TailLen(p) == if HasTail(t) then |p.enc| else 0
  {
    if !HasTail(t) {
      StaticEnc(t, a);
    }
  }

  lemma {:induction false} HeadsAreCounted(ts: seq<ArgTy>, args: seq<Arg>, ps: seq<Part>, n: nat)
    requires Good(ts, args, ps, n)
    ensures HeadLenTo(ps, n) == HeadWords(ts, n) * 32
  {
    if n > 0 {
      HeadsAreCounted(ts, args, ps, n - 1);
      PartKind(ts[n - 1], args[n - 1], ps[n - 1]);
    }
  }

  // Sums

  lemma {:induction false} TotalPrefix(terms: seq<Term>, t: Term, n: nat, args: seq<Arg>, locals: seq<Local>)
    requires |locals| == |args| && n <= |terms|
    ensures Total(terms + [t], n, args, locals) == Total(terms, n, args, locals)
  {
    if n > 0 {
      TotalPrefix(terms, t, n - 1, args, locals);
    }
  }

  function TermSum(terms: seq<Term>, args: seq<Arg>, locals: seq<Local>): nat
    requires |locals| == |args|
  {
    Total(terms, |terms|, args, locals)
  }

  lemma SumMore(terms: seq<Term>, t: Term, args: seq<Arg>, locals: seq<Local>)
    requires |locals| == |args|
    ensures TermSum(terms + [t], args, locals) == TermSum(terms, args, locals) + TermValue(t, args, locals)
  {
    TotalPrefix(terms, t, |terms|, args, locals);
  }

  lemma SpaceValue(t: ArgTy, a: Arg, p: Part)
    requires IsPart(t, a, p) && t.Bytes? && TailLen(p) < U32
    ensures (Roundup(LenOf(a)) + 32) % U32 == |p.enc|
  {
    BytesEnc(t, a);
  }

  lemma SpaceAdded(t: ArgTy, args: seq<Arg>, p: Part, terms: seq<Term>, i: nat, locals: seq<Local>)
    requires |locals| == |args| && i < |args| && IsPart(t, args[i], p) && t.Bytes? && TailLen(p) < U32
    ensures TermSum(terms + [Space(i)], args, locals) == TermSum(terms, args, locals) + |p.enc|
  {
    SpaceValue(t, args[i], p);
    SumMore(terms, Space(i), args, locals);
  }

  lemma {:induction false} SizeTermsSum(ts: seq<ArgTy>, args: seq<Arg>, ps: seq<Part>, n: nat, locals: seq<Local>)
    requires Good(ts, args, ps, n) && |locals| == |args|
    ensures TermSum(SizeTerms(ts, n), args, locals) == BytesLenTo(ts, ps, n)
  {
    if n > 0 {
      SizeTermsSum(ts, args, ps, n - 1, locals);
      if ts[n - 1].Bytes? {
        SpaceAdded(ts[n - 1], args, ps[n - 1], SizeTerms(ts, n - 1), n - 1, locals);
      }
    }
  }

  lemma {:induction false} SizeTermsOk(ts: seq<ArgTy>, args: seq<Arg>, n: nat)
    requires n <= |ts| == |args|
    ensures TermsOk(SizeTerms(ts, n), args) && TermsOk(OffsetTerms(ts, n), args)
  {
    if n > 0 {
      SizeTermsOk(ts, args, n - 1);
    }
  }

  // Measuring

  /** The local variables of an argument after measuring. */
  predicate LocalMeasured(t: ArgTy, a: Arg, p: Part, l: Local) {
    IsMeasured(t) ==> l.dataLength == |p.enc| && (IsBlobs(t) && a.Strings? ==> l.filled == Spaces(a.bs))
  }

  lemma MeasuredOne(t: ArgTy, a: Arg, p: Part, i: nat, was: Local)
    requires IsPart(t, a, p) && TailLen(p) < U32 && IsMeasured(t) && was.dataLength == 0
    ensures MeasureOf(t, i).MeasureBlobs? ==> a.Strings?
    ensures LocalMeasured(t, a, p, Measured(MeasureOf(t, i), a, was))
  {
    if IsBlobs(t) {
      MeasuredBlobs(t, a, i, was);
    } else {
      MeasuredWords(t, a, i, was);
    }
  }

  lemma MeasuredBlobs(t: ArgTy, a: Arg, i: nat, was: Local)
    requires Fits(t, a) && |EncOf(t, a)| < U32 && IsBlobs(t) && was.dataLength == 0
    ensures Measured(MeasureOf(t, i), a, was) == Local(|EncOf(t, a)|, Spaces(a.bs))
  {
    BlobsSize(t, a);
    NoWrap(|EncOf(t, a)|);
  }

  lemma MeasuredWords(t: ArgTy, a: Arg, i: nat, was: Local)
    requires Fits(t, a) && |EncOf(t, a)| < U32 && t.DynArray? && was.dataLength == 0
    ensures Measured(MeasureOf(t, i), a, was).dataLength == |EncOf(t, a)|
  {
    WordsEnc(t, a);
    NoWrap(|EncOf(t, a)|);
  }

  lemma {:induction false} MeasurePrefix(ms: seq<Measure>, m: Measure, n: nat, args: seq<Arg>, locals: seq<Local>, size: nat)
    requires |locals| == |args| && n <= |ms|
    ensures MeasuredLocals(ms + [m], n, args, locals) == MeasuredLocals(ms, n, args, locals)
    ensures MeasuredSize(ms + [m], n, args, locals, size) == MeasuredSize(ms, n, args, locals, size)
    ensures MeasuresOk(ms + [m], n, args) <==> MeasuresOk(ms, n, args)
  {
    if n > 0 {
      MeasurePrefix(ms, m, n - 1, args, locals, size);
    }
  }

  lemma MeasureMore(ms: seq<Measure>, m: Measure, args: seq<Arg>, locals: seq<Local>, size: nat)
    requires |locals| == |args| && MeasureOk(m, args)
    ensures var before, n := MeasuredLocals(ms, |ms|, args, locals), |ms|;
      var l := Measured(m, args[m.i], before[m.i]);
      && MeasuredLocals(ms + [m], n + 1, args, locals) == before[m.i := l]
      && MeasuredSize(ms + [m], n + 1, args, locals, size) ==
        (MeasuredSize(ms, n, args, locals, size) + l.dataLength) % U32
      && (MeasuresOk(ms + [m], n + 1, args) <==> MeasuresOk(ms, n, args))
  {
    MeasurePrefix(ms, m, |ms|, args, locals, size);
  }

  /** The first n arguments have been measured, and the others not. */
  predicate MeasuredTo(ts: seq<ArgTy>, args: seq<Arg>, ps: seq<Part>, n: nat, before: seq<Local>, after: seq<Local>)
    requires |ts| == |args| == |ps| == |before| == |after| && n <= |ts|
  {
    && (forall i :: 0 <= i < n ==> LocalMeasured(ts[i], args[i], ps[i], after[i]))
    && (forall i :: n <= i < |ts| ==> after[i] == before[i])
  }

  /** The local variables of the first n arguments hold their measured lengths. */
  predicate LocalsMeasured(ts: seq<ArgTy>, args: seq<Arg>, ps: seq<Part>, locals: seq<Local>, n: nat)
    requires n <= |ts| == |args| == |ps| == |locals|
  {
    n == 0 ||
    (LocalsMeasured(ts, args, ps, locals, n - 1) && LocalMeasured(ts[n - 1], args[n - 1], ps[n - 1], locals[n - 1]))
  }

  lemma {:induction false} LocalsMeasuredTo(ts: seq<ArgTy>, args: seq<Arg>, ps: seq<Part>, locals: seq<Local>, m: nat, n: nat)
    requires m <= n <= |ts| == |args| == |ps| == |locals| && LocalsMeasured(ts, args, ps, locals, n)
    ensures LocalsMeasured(ts, args, ps, locals, m)
    ensures m < n ==> LocalMeasured(ts[m], args[m], ps[m], locals[m])
  {
    if m < n {
      LocalsMeasuredTo(ts, args, ps, locals, m, n - 1);
    }
  }

  lemma {:induction false} MeasuredUpTo(ts: seq<ArgTy>, args: seq<Arg>, ps: seq<Part>, n: nat,
                                             before: seq<Local>, after: seq<Local>, m: nat)
    requires |ts| == |args| == |ps| == |before| == |after| && m <= n <= |ts| && MeasuredTo(ts, args, ps, n, before, after)
    ensures LocalsMeasured(ts, args, ps, after, m)
  {
    if m > 0 {
      MeasuredUpTo(ts, args, ps, n, before, after, m - 1);
    }
  }

  predicate Unmeasured(locals: seq<Local>) {
    forall i :: 0 <= i < |locals| ==> locals[i].dataLength == 0
  }

  /** The statements ms measure the first n arguments, and add their lengths to the size. */
  predicate MeasuredBy(ms: seq<Measure>, ts: seq<ArgTy>, args: seq<Arg>, ps: seq<Part>, n: nat, locals: seq<Local>, size: nat)
    requires n <= |ts| == |args| == |ps| == |locals|
  {
    && MeasuresOk(ms, |ms|, args)
    && MeasuredTo(ts, args, ps, n, locals, MeasuredLocals(ms, |ms|, args, locals))
    && MeasuredSize(ms, |ms|, args, locals, size) == (size + MeasuredLenTo(ts, ps, n)) % U32
  }

  lemma MeasureStep(ms: seq<Measure>, ts: seq<ArgTy>, args: seq<Arg>, ps: seq<Part>, i: nat, locals: seq<Local>, size: nat)
    requires i < |ts| == |args| == |ps| == |locals| && MeasuredBy(ms, ts, args, ps, i, locals, size)
    requires IsPart(ts[i], args[i], ps[i]) && TailLen(ps[i]) < U32 && IsMeasured(ts[i]) && locals[i].dataLength == 0
    ensures MeasuredBy(ms + [MeasureOf(ts[i], i)], ts, args, ps, i + 1, locals, size)
  {
    var m, before := MeasureOf(ts[i], i), MeasuredLocals(ms, |ms|, args, locals);
    var sizeBefore := MeasuredSize(ms, |ms|, args, locals, size);
    var l, sizeAfter := OneMore(ms, m, ts[i], args, ps[i], i, locals, size, before, sizeBefore);
    MeasuredNext(ts, args, ps, i, locals, before, l);
    SizeNext(ts, ps, i, size, sizeBefore, l.dataLength, sizeAfter);
  }

  lemma OneMore(ms: seq<Measure>, m: Measure, t: ArgTy, args: seq<Arg>, p: Part, i: nat, locals: seq<Local>, size: nat,
                before: seq<Local>, sizeBefore: nat)
    returns (l: Local, sizeAfter: nat)
    requires i < |args| == |locals| == |before| && MeasuresOk(ms, |ms|, args)
    requires before == MeasuredLocals(ms, |ms|, args, locals) && sizeBefore == MeasuredSize(ms, |ms|, args, locals, size)
    requires IsPart(t, args[i], p) && TailLen(p) < U32 && IsMeasured(t) && m == MeasureOf(t, i) && before[i].dataLength == 0
    ensures LocalMeasured(t, args[i], p, l)
    ensures MeasuresOk(ms + [m], |ms + [m]|, args) && MeasuredLocals(ms + [m], |ms + [m]|, args, locals) == before[i := l]
    ensures sizeAfter == MeasuredSize(ms + [m], |ms + [m]|, args, locals, size) == (sizeBefore + l.dataLength) % U32
  {
    MeasuredOne(t, args[i], p, i, before[i]);
    MeasurePossible(t, args, i);
    l, sizeAfter := Appended(ms, m, t, args, p, i, locals, size, before, sizeBefore);
  }

  lemma MeasurePossible(t: ArgTy, args: seq<Arg>, i: nat)
    requires i < |args| && (MeasureOf(t, i).MeasureBlobs? ==> args[i].Strings?)
    ensures MeasureOk(MeasureOf(t, i), args) && MeasureOf(t, i).i == i
  {
  }

  lemma Appended(ms: seq<Measure>, m: Measure, t: ArgTy, args: seq<Arg>, p: Part, i: nat, locals: seq<Local>, size: nat,
                 before: seq<Local>, sizeBefore: nat)
    returns (l: Local, sizeAfter: nat)
    requires i < |args| == |locals| && MeasureOk(m, args) && m.i == i && MeasuresOk(ms, |ms|, args)
    requires before == MeasuredLocals(ms, |ms|, args, locals) && sizeBefore == MeasuredSize(ms, |ms|, args, locals, size)
    requires LocalMeasured(t, args[i], p, Measured(m, args[i], before[i]))
    ensures LocalMeasured(t, args[i], p, l)
    ensures MeasuresOk(ms + [m], |ms + [m]|, args) && MeasuredLocals(ms + [m], |ms + [m]|, args, locals) == before[i := l]
    ensures sizeAfter == MeasuredSize(ms + [m], |ms + [m]|, args, locals, size) == (sizeBefore + l.dataLength) % U32
  {
    l := Measured(m, args[i], before[i]);
    MeasureMore(ms, m, args, locals, size);
    sizeAfter := MeasuredSize(ms + [m], |ms| + 1, args, locals, size);
  }

  lemma SizeNext(ts: seq<ArgTy>, ps: seq<Part>, i: nat, size: nat, before: nat, own: nat, after: nat)
    requires i < |ts| == |ps| && IsMeasured(ts[i]) && before == (size + MeasuredLenTo(ts, ps, i)) % U32
    requires own == |ps[i].enc| && after == (before + own) % U32
    ensures after == (size + MeasuredLenTo(ts, ps, i + 1)) % U32
  {
    Wraps(size + MeasuredLenTo(ts, ps, i), own);
  }

  lemma MeasuredNext(ts: seq<ArgTy>, args: seq<Arg>, ps: seq<Part>, i: nat, locals: seq<Local>, before: seq<Local>, l: Local)
    requires i < |ts| == |args| == |ps| == |locals| == |before| && MeasuredTo(ts, args, ps, i, locals, before)
    requires LocalMeasured(ts[i], args[i], ps[i], l)
    ensures MeasuredTo(ts, args, ps, i + 1, locals, before[i := l])
  {
  }

  lemma NoMeasureStep(ms: seq<Measure>, ts: seq<ArgTy>, args: seq<Arg>, ps: seq<Part>, i: nat, locals: seq<Local>, size: nat)
    requires i < |ts| == |args| == |ps| == |locals| && MeasuredBy(ms, ts, args, ps, i, locals, size) && !IsMeasured(ts[i])
    ensures MeasuredBy(ms, ts, args, ps, i + 1, locals, size)
  {
  }

  /** Measuring finds the length of every tail. */
  lemma {:induction false} AllMeasured(ts: seq<ArgTy>, args: seq<Arg>, ps: seq<Part>, n: nat, locals: seq<Local>, size: nat)
    requires Good(ts, args, ps, n) && |locals| == |args| && Unmeasured(locals) && size < U32
    ensures MeasuredBy(Measures(ts, n), ts, args, ps, n, locals, size)
  {
    if n == 0 {
      NoWrap(size);
    } else {
      AllMeasured(ts, args, ps, n - 1, locals, size);
      if IsMeasured(ts[n - 1]) {
        MeasureStep(Measures(ts, n - 1), ts, args, ps, n - 1, locals, size);
      } else {
        NoMeasureStep(Measures(ts, n - 1), ts, args, ps, n - 1, locals, size);
      }
    }
  }

  lemma Wraps(sum: nat, x: nat)
    ensures (sum % U32 + x) % U32 == (sum + x) % U32
  {
  }

  /** Size pass and measuring pass together allocate exactly the room of selector, heads and tails. */
  lemma SizeIsExact(ts: seq<ArgTy>, args: seq<Arg>, ps: seq<Part>, locals: seq<Local>)
    requires Good(ts, args, ps, |ts|) && |locals| == |args| && Unmeasured(locals)
    requires 4 + HeadLenTo(ps, |ps|) + TailLenTo(ps, |ps|) < U32
    ensures FieldLen(Compile(ts), args, locals) == 4 + HeadLenTo(ps, |ps|) + TailLenTo(ps, |ps|)
  {
    var n := |ts|;
    var size := BytesLenTo(ts, ps, n) + HeadLenTo(ps, n) + 4;
    TailsAreCounted(ts, args, ps, n);
    InitialSize(ts, args, ps, locals);
    AllAdded(ts, args, ps, locals, size);
    TwoPasses(ts, args, locals, size, 4 + HeadLenTo(ps, n) + TailLenTo(ps, n));
  }

  /** The size is that of the first pass plus what measuring adds. */
  lemma TwoPasses(ts: seq<ArgTy>, args: seq<Arg>, locals: seq<Local>, size: nat, total: nat)
    requires |locals| == |args| && Value(Compile(ts).size, args, locals) == size
    requires MeasuredSize(Measures(ts, |ts|), |Measures(ts, |ts|)|, args, locals, size) == total
    ensures FieldLen(Compile(ts), args, locals) == total
  {
  }

  lemma AllAdded(ts: seq<ArgTy>, args: seq<Arg>, ps: seq<Part>, locals: seq<Local>, size: nat)
    requires Good(ts, args, ps, |ts|) && |locals| == |args| && Unmeasured(locals)
    requires size + MeasuredLenTo(ts, ps, |ts|) < U32
    ensures var ms := Measures(ts, |ts|);
      MeasuredSize(ms, |ms|, args, locals, size) == size + MeasuredLenTo(ts, ps, |ts|)
  {
    AllMeasured(ts, args, ps, |ts|, locals, size);
    Added(Measures(ts, |ts|), ts, args, ps, |ts|, locals, size, size + MeasuredLenTo(ts, ps, |ts|));
  }

  lemma Added(ms: seq<Measure>, ts: seq<ArgTy>, args: seq<Arg>, ps: seq<Part>, n: nat, locals: seq<Local>,
              size: nat, total: nat)
    requires n <= |ts| == |args| == |ps| == |locals| && MeasuredBy(ms, ts, args, ps, n, locals, size)
    requires total == size + MeasuredLenTo(ts, ps, n) < U32
    ensures MeasuredSize(ms, |ms|, args, locals, size) == total
  {
    NoWrap(total);
  }

  lemma InitialSize(ts: seq<ArgTy>, args: seq<Arg>, ps: seq<Part>, locals: seq<Local>)
    requires Good(ts, args, ps, |ts|) && |locals| == |args|
    requires BytesLenTo(ts, ps, |ts|) + HeadLenTo(ps, |ts|) + 4 < U32
    ensures Value(Compile(ts).size, args, locals) == BytesLenTo(ts, ps, |ts|) + HeadLenTo(ps, |ts|) + 4
  {
    var n := |ts|;
    SizeTermsSum(ts, args, ps, n, locals);
    HeadsAreCounted(ts, args, ps, n);
    SumValue(Compile(ts).size, args, locals, BytesLenTo(ts, ps, n) + HeadLenTo(ps, n) + 4);
  }

  /** A sum that does not wrap around. */
  lemma SumValue(s: Sum, args: seq<Arg>, locals: seq<Local>, total: nat)
    requires |locals| == |args| && Total(s.terms, |s.terms|, args, locals) + s.n == total < U32
    ensures Value(s, args, locals) == total
  {
    NoWrap(total);
  }
}
