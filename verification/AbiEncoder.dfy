/** Generator and emitted code together, from argument types and values to call data. */
module AbiEncoder {
  import opened Bytes
  import opened AbiSpec
  import opened AbiArgs
  import opened AbiWords
  import opened AbiGen
  import opened AbiRun
  import opened AbiEncode
  import opened AbiProgram
  import opened AbiOutput
  import opened AbiPointers
  import opened AbiMachine

  /** The encoding of the argument list in the Contract ABI Specification, with the words the
      emitted code forms. */
  function CallData(ts: seq<ArgTy>, args: seq<Arg>): seq<byte>
    requires AllFit(ts, args)
  {
    TupleFits(TysOf(ts), ValsOf(ts, args, false));
    EncArgs(TysOf(ts), ValsOf(ts, args, false))
  }

  function ArgParts(ts: seq<ArgTy>, args: seq<Arg>): (ps: seq<Part>)
    requires AllFit(ts, args)
    ensures |ps| == |ts|
    ensures CallData(ts, args) == Assemble(ps)
  {
    TupleFits(TysOf(ts), ValsOf(ts, args, false));
    TupleParts(TysOf(ts), ValsOf(ts, args, false))
  }

  lemma ArgPartAt(ts: seq<ArgTy>, args: seq<Arg>, i: nat)
    requires AllFit(ts, args) && i < |ts|
    ensures IsPart(ts[i], args[i], ArgParts(ts, args)[i])
  {
    TupleFits(TysOf(ts), ValsOf(ts, args, false));
    DynamicTypes(ts[i]);
  }

  lemma {:induction false} ArgPartsTo(ts: seq<ArgTy>, args: seq<Arg>, n: nat)
    requires AllFit(ts, args) && n <= |ts|
    ensures AreParts(ts, args, ArgParts(ts, args), n)
  {
    if n > 0 {
      ArgPartsTo(ts, args, n - 1);
      ArgPartAt(ts, args, n - 1);
    }
  }

  lemma CallDataLength(ts: seq<ArgTy>, args: seq<Arg>)
    requires AllFit(ts, args)
    ensures |CallData(ts, args)| == HeadLenTo(ArgParts(ts, args), |ts|) + TailLenTo(ArgParts(ts, args), |ts|)
  {
    var ps := ArgParts(ts, args);
    AssembledTo(ps, HeadLenTo(ps, |ts|));
    LengthsTo(ps, |ts|, HeadLenTo(ps, |ts|));
  }

  lemma ArgPartsGood(ts: seq<ArgTy>, args: seq<Arg>)
    requires AllFit(ts, args) && 4 + |CallData(ts, args)| < U32
    ensures Good(ts, args, ArgParts(ts, args), |ts|)
    ensures HeadLenTo(ArgParts(ts, args), |ts|) + TailLenTo(ArgParts(ts, args), |ts|) == |CallData(ts, args)|
  {
    ArgPartsTo(ts, args, |ts|);
    CallDataLength(ts, args);
  }

  /** The local variables of a call before any statement: data lengths are 0, arrays of lengths
      hold anything. */
  predicate Initial(args: seq<Arg>, locals: seq<Local>) {
    |locals| == |args| && Shaped(args, locals, |args|) && Unmeasured(locals)
  }

  /** Runs the generator and then the emitted function, up to the use of the call data. The
      arguments passed by pointer are in the caller's memory, where they are reversed; what is
      sent is the encoding of the arguments as they stand when their turns come. */
  method Encode(ts: seq<ArgTy>, given: seq<Arg>, ptrs: Pointers, locals: seq<Local>, selector: seq<byte>)
    returns (field: array<byte>)
    requires AllFit(ts, given) && 4 + |CallData(ts, given)| < U32
    requires Initial(given, locals) && |selector| == 4
    requires Passed(ts, ptrs) && PointsTo(ptrs, given)
    modifies ptrs.Values
    ensures AllFit(ts, Seen(ts, given, ptrs)) && field[..] == selector + CallData(ts, Seen(ts, given, ptrs))
    ensures PointsTo(ptrs, Left(ts, given, ptrs))
  {
    var p := Generate(ts);
    SeenRuns(ts, given, ptrs, locals);
    SeenOutput(ts, given, ptrs, locals);
    var call := new Call(given, ptrs, Seen(ts, given, ptrs), locals);
    PointeesStart(call, p.writes);
    field := call.Run(p, selector);
    PointeesEnd(call, ts);
  }

  lemma PointeesStart(call: Call, ws: seq<Write>)
    requires Agree(call.given, call.args, call.ptrs) && PointsTo(call.ptrs, call.given)
    ensures call.Pointees(ws, 0)
  {
  }

  lemma PointeesEnd(call: Call, ts: seq<ArgTy>)
    requires AllFit(ts, call.given) && Passed(ts, call.ptrs) && Agree(call.given, call.args, call.ptrs)
    requires call.Pointees(Compile(ts).writes, |Compile(ts).writes|)
    ensures PointsTo(call.ptrs, Left(ts, call.given, call.ptrs))
  {
    var ptrs, ws := call.ptrs, Compile(ts).writes;
    HeadsCount(ts, |ts|);
    forall i | i in ptrs ensures i < |ts| && Left(ts, call.given, ptrs)[i] == Elems([ptrs[i][..]]) {
      FlippedAfter(ts, |ws|, ptrs, ptrs[i]);
    }
  }

  // Arguments passed by pointer

  /** The pointers are those of the arguments that are passed by pointer. */
  predicate Passed(ts: seq<ArgTy>, ptrs: Pointers) {
    && (forall i :: i in ptrs ==> i < |ts| && ByPointer(ts[i]))
    && forall i :: 0 <= i < |ts| && ByPointer(ts[i]) ==> i in ptrs
  }

  /** What the pointers point to. */
  ghost predicate PointsTo(ptrs: Pointers, args: seq<Arg>)
    reads ptrs.Values
  {
    forall i :: i in ptrs ==> i < |args| && args[i] == Elems([ptrs[i][..]])
  }

  /** Whether the first n arguments reverse what p points to an odd number of times. */
  predicate FlippedBy(ts: seq<ArgTy>, n: nat, ptrs: Pointers, p: array<byte>)
    requires n <= |ts|
  {
    n > 0 &&
    (FlippedBy(ts, n - 1, ptrs, p) !=
     (n - 1 in ptrs && ptrs[n - 1] == p && ByPointer(ts[n - 1]) && Reversed(Single, ts[n - 1].e)))
  }

  /** The arguments as each stands when its turn to be written comes. */
  function Seen(ts: seq<ArgTy>, given: seq<Arg>, ptrs: Pointers): (args: seq<Arg>)
    requires AllFit(ts, given) && Passed(ts, ptrs)
    ensures |args| == |ts|
  {
    seq(|ts|, i requires 0 <= i < |ts| =>
      if i in ptrs then Elems([Turned(given[i].mems[0], FlippedBy(ts, i, ptrs, ptrs[i]))]) else given[i])
  }

  /** The arguments as the call leaves them. */
  function Left(ts: seq<ArgTy>, given: seq<Arg>, ptrs: Pointers): (args: seq<Arg>)
    requires AllFit(ts, given) && Passed(ts, ptrs)
    ensures |args| == |ts|
  {
    seq(|ts|, i requires 0 <= i < |ts| =>
      if i in ptrs then Elems([Turned(given[i].mems[0], FlippedBy(ts, |ts|, ptrs, ptrs[i]))]) else given[i])
  }

  lemma SeenAt(ts: seq<ArgTy>, given: seq<Arg>, ptrs: Pointers, i: nat)
    requires AllFit(ts, given) && Passed(ts, ptrs) && i < |ts|
    ensures Fits(ts[i], Seen(ts, given, ptrs)[i])
    ensures LenOf(Seen(ts, given, ptrs)[i]) == LenOf(given[i])
    ensures i in ptrs ==> IsPointee(given[i]) && IsPointee(Seen(ts, given, ptrs)[i])
  {
    if i in ptrs {
      assert given[i].mems == [given[i].mems[0]];
      OneFits(ts[i].e, Turned(given[i].mems[0], FlippedBy(ts, i, ptrs, ptrs[i])));
    }
  }

  lemma OneFits(e: Elem, mem: seq<byte>)
    requires Supported(e) && |mem| == SizeOf(e)
    ensures ElemsFit(e, [mem])
  {
    assert |[mem][1..]| == 0;
  }

  lemma SeenAgrees(ts: seq<ArgTy>, given: seq<Arg>, ptrs: Pointers)
    requires AllFit(ts, given) && Passed(ts, ptrs)
    ensures AllFit(ts, Seen(ts, given, ptrs)) && Agree(given, Seen(ts, given, ptrs), ptrs)
  {
    forall i | 0 <= i < |ts|
      ensures Fits(ts[i], Seen(ts, given, ptrs)[i])
      ensures i in ptrs ==> IsPointee(given[i]) && IsPointee(Seen(ts, given, ptrs)[i])
    {
      SeenAt(ts, given, ptrs, i);
    }
  }

  lemma {:induction false} SeenShaped(ts: seq<ArgTy>, given: seq<Arg>, ptrs: Pointers, locals: seq<Local>, n: nat)
    requires AllFit(ts, given) && Passed(ts, ptrs) && |locals| == |given| && n <= |ts|
    requires Shaped(given, locals, n)
    ensures Shaped(Seen(ts, given, ptrs), locals, n)
  {
    if n > 0 {
      SeenShaped(ts, given, ptrs, locals, n - 1);
      SeenAt(ts, given, ptrs, n - 1);
    }
  }

  /** The parts of the encoding keep their lengths. */
  lemma {:induction false} SeenLengths(ts: seq<ArgTy>, given: seq<Arg>, args: seq<Arg>, ptrs: Pointers, n: nat)
    requires AllFit(ts, given) && Passed(ts, ptrs) && args == Seen(ts, given, ptrs) && AllFit(ts, args) && n <= |ts|
    ensures HeadLenTo(ArgParts(ts, args), n) == HeadLenTo(ArgParts(ts, given), n)
    ensures TailLenTo(ArgParts(ts, args), n) == TailLenTo(ArgParts(ts, given), n)
  {
    if n > 0 {
      SeenLengths(ts, given, args, ptrs, n - 1);
      ArgPartAt(ts, given, n - 1);
      ArgPartAt(ts, args, n - 1);
      PartKind(ts[n - 1], given[n - 1], ArgParts(ts, given)[n - 1]);
      PartKind(ts[n - 1], args[n - 1], ArgParts(ts, args)[n - 1]);
    }
  }

  lemma SeenSize(ts: seq<ArgTy>, given: seq<Arg>, ptrs: Pointers)
    requires AllFit(ts, given) && Passed(ts, ptrs)
    ensures AllFit(ts, Seen(ts, given, ptrs)) && |CallData(ts, Seen(ts, given, ptrs))| == |CallData(ts, given)|
  {
    SeenAgrees(ts, given, ptrs);
    CallDataLength(ts, given);
    CallDataLength(ts, Seen(ts, given, ptrs));
    SeenLengths(ts, given, Seen(ts, given, ptrs), ptrs, |ts|);
  }

  // Statements and arguments

  lemma {:induction false} HeadAt(ts: seq<ArgTy>, n: nat, j: nat)
    requires j < n <= |ts|
    ensures |HeadWrites(ts, n)| == n && HeadWrites(ts, n)[j] == HeadOf(ts, j)
  {
    HeadsCount(ts, n - 1);
    if j < n - 1 {
      HeadAt(ts, n - 1, j);
    }
  }

  lemma {:induction false} HeadsCount(ts: seq<ArgTy>, n: nat)
    requires n <= |ts|
    ensures |HeadWrites(ts, n)| == n
  {
    if n > 0 {
      HeadsCount(ts, n - 1);
    }
  }

  /** The tails are not written behind these pointers. */
  lemma {:induction false} TailAt(ts: seq<ArgTy>, n: nat, ptrs: Pointers, j: nat)
    requires n <= |ts| && Passed(ts, ptrs) && j < |TailWrites(ts, n)|
    ensures !Pointed(TailWrites(ts, n)[j], ptrs)
  {
    var before := TailWrites(ts, n - 1);
    if j < |before| {
      TailAt(ts, n - 1, ptrs, j);
    } else {
      assert TailWrites(ts, n)[j] == TailOf(ts[n - 1], n - 1)[j - |before|];
    }
  }

  /** Statement j of the program writes the head of argument j, or it is not written behind a pointer. */
  lemma StatementAt(ts: seq<ArgTy>, ptrs: Pointers, j: nat)
    requires Passed(ts, ptrs) && j < |Compile(ts).writes|
    ensures |ts| <= |Compile(ts).writes|
    ensures if j < |ts| then Compile(ts).writes[j] == HeadOf(ts, j) else !Pointed(Compile(ts).writes[j], ptrs)
  {
    HeadsCount(ts, |ts|);
    if j < |ts| {
      HeadAt(ts, |ts|, j);
    } else {
      TailAt(ts, |ts|, ptrs, j - |ts|);
    }
  }

  lemma {:induction false} FlippedAfter(ts: seq<ArgTy>, n: nat, ptrs: Pointers, p: array<byte>)
    requires Passed(ts, ptrs) && n <= |Compile(ts).writes|
    ensures Flipped(Compile(ts).writes, n, ptrs, p) == FlippedBy(ts, if n < |ts| then n else |ts|, ptrs, p)
  {
    if n > 0 {
      FlippedAfter(ts, n - 1, ptrs, p);
      StatementAt(ts, ptrs, n - 1);
    }
  }

  lemma {:induction false} SeenInTurn(ts: seq<ArgTy>, given: seq<Arg>, ptrs: Pointers, n: nat)
    requires AllFit(ts, given) && Passed(ts, ptrs) && n <= |Compile(ts).writes|
    ensures InTurn(Compile(ts).writes, n, ptrs, given, Seen(ts, given, ptrs))
  {
    if n > 0 {
      SeenInTurn(ts, given, ptrs, n - 1);
      StatementAt(ts, ptrs, n - 1);
      if n - 1 in ptrs {
        SeenAt(ts, given, ptrs, n - 1);
        FlippedAfter(ts, n - 1, ptrs, ptrs[n - 1]);
      }
    }
  }

  lemma PointeesFit(ts: seq<ArgTy>, ptrs: Pointers)
    requires Passed(ts, ptrs)
    ensures PointeesOk(Compile(ts).writes, ptrs)
  {
    forall j | 0 <= j < |Compile(ts).writes| && Pointed(Compile(ts).writes[j], ptrs)
      ensures !IsNative(Compile(ts).writes[j].e)
    {
      StatementAt(ts, ptrs, j);
    }
  }

  /** All that the emitted function needs to be run on these arguments. */
  lemma SeenRuns(ts: seq<ArgTy>, given: seq<Arg>, ptrs: Pointers, locals: seq<Local>)
    requires AllFit(ts, given) && Initial(given, locals) && Passed(ts, ptrs)
    ensures var ws, args := Compile(ts).writes, Seen(ts, given, ptrs);
      && Agree(given, args, ptrs) && Initial(args, locals)
      && InTurn(ws, |ws|, ptrs, given, args) && PointeesOk(ws, ptrs)
  {
    SeenAgrees(ts, given, ptrs);
    SeenShaped(ts, given, ptrs, locals, |ts|);
    SeenInTurn(ts, given, ptrs, |Compile(ts).writes|);
    PointeesFit(ts, ptrs);
  }

  /** What it then writes. */
  lemma SeenOutput(ts: seq<ArgTy>, given: seq<Arg>, ptrs: Pointers, locals: seq<Local>)
    requires AllFit(ts, given) && 4 + |CallData(ts, given)| < U32
    requires Passed(ts, ptrs) && Initial(given, locals)
    ensures var p, args := Compile(ts), Seen(ts, given, ptrs);
      && AllFit(ts, args) && ProgramOk(p, args) && Exact(p, args, locals)
      && Output(p, args, locals) == CallData(ts, args)
  {
    SeenSize(ts, given, ptrs);
    SeenShaped(ts, given, ptrs, locals, |ts|);
    ProgramSends(ts, Seen(ts, given, ptrs), locals);
  }

  lemma ProgramSends(ts: seq<ArgTy>, args: seq<Arg>, locals: seq<Local>)
    requires AllFit(ts, args) && 4 + |CallData(ts, args)| < U32 && Initial(args, locals)
    ensures var p := Compile(ts);
      ProgramOk(p, args) && Exact(p, args, locals) && Output(p, args, locals) == CallData(ts, args)
  {
    ArgPartsGood(ts, args);
    ProgramCorrect(ts, args, ArgParts(ts, args), locals);
  }

  /** Without a pointer that is passed twice, what is sent is the encoding of what was given. */
  lemma DistinctPointers(ts: seq<ArgTy>, given: seq<Arg>, ptrs: Pointers)
    requires AllFit(ts, given) && Passed(ts, ptrs)
    requires forall i, j :: i in ptrs && j in ptrs && i < j ==> ptrs[i] != ptrs[j]
    ensures Seen(ts, given, ptrs) == given
  {
    forall i | 0 <= i < |ts| ensures Seen(ts, given, ptrs)[i] == given[i] {
      if i in ptrs {
        NotFlipped(ts, i, ptrs, i);
        SeenAt(ts, given, ptrs, i);
        assert given[i] == Elems([given[i].mems[0]]);
      }
    }
  }

  lemma {:induction false} NotFlipped(ts: seq<ArgTy>, n: nat, ptrs: Pointers, i: nat)
    requires n <= i < |ts| && i in ptrs && forall j :: j in ptrs && j < i ==> ptrs[j] != ptrs[i]
    ensures !FlippedBy(ts, n, ptrs, ptrs[i])
  {
    if n > 0 {
      NotFlipped(ts, n - 1, ptrs, i);
    }
  }

  /** In general it is exactly when every argument that finds its memory reversed reads the same
      both ways. */
  lemma AliasedExactly(ts: seq<ArgTy>, given: seq<Arg>, ptrs: Pointers)
    requires AllFit(ts, given) && Passed(ts, ptrs) && 4 + |CallData(ts, given)| < U32
    ensures AllFit(ts, Seen(ts, given, ptrs))
    ensures CallData(ts, Seen(ts, given, ptrs)) == CallData(ts, given) <==>
      forall i :: i in ptrs ==> Unharmed(ts, given, ptrs, i)
  {
    var args := Seen(ts, given, ptrs);
    SeenSize(ts, given, ptrs);
    if CallData(ts, args) == CallData(ts, given) {
      forall i | i in ptrs ensures Unharmed(ts, given, ptrs, i) {
        SameData(ts, given, args, i);
        SeenAt(ts, given, ptrs, i);
      }
    }
    if forall i :: i in ptrs ==> Unharmed(ts, given, ptrs, i) {
      forall i | 0 <= i < |ts| ensures args[i] == given[i] {
        if i in ptrs {
          assert Unharmed(ts, given, ptrs, i);
          SeenAt(ts, given, ptrs, i);
          assert given[i] == Elems([given[i].mems[0]]);
        }
      }
      assert args == given;
    }
  }

  predicate Unharmed(ts: seq<ArgTy>, given: seq<Arg>, ptrs: Pointers, i: nat)
    requires AllFit(ts, given) && Passed(ts, ptrs) && i in ptrs
  {
    FlippedBy(ts, i, ptrs, ptrs[i]) ==> Reverse(given[i].mems[0]) == given[i].mems[0]
  }

  /** Equal call data comes from equal arguments, as far as these are passed by pointer. */
  lemma SameData(ts: seq<ArgTy>, a: seq<Arg>, b: seq<Arg>, i: nat)
    requires AllFit(ts, a) && AllFit(ts, b) && CallData(ts, a) == CallData(ts, b)
    requires 4 + |CallData(ts, a)| < U32 && i < |ts| && ByPointer(ts[i])
    ensures a[i].mems[0] == b[i].mems[0]
  {
    TupleFits(TysOf(ts), ValsOf(ts, a, false));
    TupleFits(TysOf(ts), ValsOf(ts, b, false));
    RoundTrip(TysOf(ts), ValsOf(ts, a, false));
    RoundTrip(TysOf(ts), ValsOf(ts, b, false));
    assert ValsOf(ts, a, false)[i] == ValsOf(ts, b, false)[i];
    SameWord(ts[i].e, a[i].mems[0], b[i].mems[0]);
  }

  lemma SameWord(e: Elem, m: seq<byte>, n: seq<byte>)
    requires Supported(e) && !IsNative(e) && |m| == |n| == SizeOf(e)
    requires EmittedWord(Single, e, m) == EmittedWord(Single, e, n)
    ensures m == n
  {
    var a, b := Turned(m, Reversed(Single, e)), Turned(n, Reversed(Single, e));
    var w, k := EmittedWord(Single, e, m), if RightAligned(e) then WORD - |m| else 0;
    assert w[k..k + |m|] == a;
    assert EmittedWord(Single, e, n)[k..k + |m|] == b;
    ReverseTwice(m);
    ReverseTwice(n);
  }

  /** A decoder of the specification finds the values that were meant, exactly when no argument
      holds a negative number that is not sign-extended. */
  lemma Delivered(ts: seq<ArgTy>, args: seq<Arg>)
    requires AllFit(ts, args) && 4 + |CallData(ts, args)| < U32
    ensures DecArgs(TysOf(ts), CallData(ts, args)) == ValsOf(ts, args, true) <==>
      forall i :: 0 <= i < |ts| ==> !Lossy(ts[i], args[i])
  {
    TupleFits(TysOf(ts), ValsOf(ts, args, false));
    RoundTrip(TysOf(ts), ValsOf(ts, args, false));
    ValsAgree(ts, args);
  }

  /** The offset expression generated for argument i has, when its head is written, the value
      the head then holds, and counts from the first octet behind the selector to its tail. */
  lemma OffsetsHit(ts: seq<ArgTy>, args: seq<Arg>, locals: seq<Local>, i: nat)
    requires AllFit(ts, args) && 4 + |CallData(ts, args)| < U32
    requires Initial(args, locals) && i < |ts| && HasTail(ts[i])
    ensures var at := Value(OffsetSum(ts, i), args, SizedLocals(Compile(ts), args, locals));
      && At(CallData(ts, args), HeadLenTo(ArgParts(ts, args), i), BigEndian(WORD, at))
      && At(CallData(ts, args), at, EncOf(ts[i], args[i]))
  {
    var ps, at := ArgParts(ts, args), Value(OffsetSum(ts, i), args, SizedLocals(Compile(ts), args, locals));
    ArgPartsGood(ts, args);
    ArgPartAt(ts, args, i);
    OffsetComputed(ts, args, ps, locals, i);
    DynamicTypes(ts[i]);
    PartStands(ps, i, HeadLenTo(ps, |ps|), at);
  }

  lemma OffsetComputed(ts: seq<ArgTy>, args: seq<Arg>, ps: seq<Part>, locals: seq<Local>, i: nat)
    requires Good(ts, args, ps, |ts|) && |locals| == |args| && Unmeasured(locals) && i < |ts|
    requires HeadLenTo(ps, |ps|) + TailLenTo(ps, |ps|) < U32
    ensures Value(OffsetSum(ts, i), args, SizedLocals(Compile(ts), args, locals)) ==
      HeadLenTo(ps, |ps|) + TailLenTo(ps, i)
  {
    TailGrows(ps, i, |ps|);
    var measured := MeasuredLocalsOf(ts, args, ps, locals);
    OffsetIsExact(ts, args, ps, i, measured, HeadLenTo(ps, |ps|) + TailLenTo(ps, i));
  }

  /** Where part i stands in an encoding. */
  lemma PartStands(ps: seq<Part>, i: nat, h: nat, x: nat)
    requires i < |ps| && ps[i].dynamic && h == HeadLenTo(ps, |ps|)
    requires x == h + TailLenTo(ps, i)
    ensures At(Assemble(ps), HeadLenTo(ps, i), BigEndian(WORD, x)) && At(Assemble(ps), x, ps[i].enc)
  {
    AssembledTo(ps, h);
    HeadStands(ps, i, h, x);
    TailStands(ps, i);
    PartLengths(ps, i, h);
    Joined(Heads(ps, h), Tails(ps), HeadsTo(ps, i, h), BigEndian(WORD, x), TailsTo(ps, i), ps[i].enc);
  }

  lemma PartLengths(ps: seq<Part>, i: nat, h: nat)
    requires i < |ps| && h == HeadLenTo(ps, |ps|)
    ensures |HeadsTo(ps, i, h)| == HeadLenTo(ps, i) && |TailsTo(ps, i)| == TailLenTo(ps, i)
    ensures |Heads(ps, h)| == h
  {
    AssembledTo(ps, h);
    LengthsTo(ps, i, h);
  }

  lemma HeadStands(ps: seq<Part>, i: nat, h: nat, x: nat)
    requires i < |ps| && ps[i].dynamic && x == h + TailLenTo(ps, i)
    ensures HeadsTo(ps, i, h) + BigEndian(WORD, x) <= Heads(ps, h)
  {
    HeadsFromIs(ps, 0, h);
    assert ps[0..] == ps;
    HeadsCut(ps, i, h, x);
    Prefix(Heads(ps, h), HeadsTo(ps, i, h), BigEndian(WORD, x), HeadsFrom(ps, i + 1, x + TailLen(ps[i])));
  }

  lemma TailStands(ps: seq<Part>, i: nat)
    requires i < |ps| && ps[i].dynamic
    ensures TailsTo(ps, i) + ps[i].enc <= Tails(ps)
  {
    TailsFromIs(ps, 0);
    assert ps[0..] == ps;
    TailsCut(ps, i);
    Prefix(Tails(ps), TailsTo(ps, i), ps[i].enc, TailsFrom(ps, i + 1));
  }

  lemma Prefix(s: seq<byte>, a: seq<byte>, b: seq<byte>, c: seq<byte>)
    requires s == a + (b + c)
    ensures a + b <= s
  {
    ConcatAssoc(a, b, c);
  }

  lemma Joined(heads: seq<byte>, tails: seq<byte>, a: seq<byte>, b: seq<byte>, c: seq<byte>, d: seq<byte>)
    requires a + b <= heads && c + d <= tails
    ensures At(heads + tails, |a|, b) && At(heads + tails, |heads| + |c|, d)
  {
    var s := heads + tails;
    assert s[|heads|..] == tails;
    assert tails[|c|..|c| + |d|] == d;
    SliceOfSlice(s, |heads|, |tails|, |c|, |c| + |d|);
    assert heads[|a|..|a| + |b|] == b;
  }
}
