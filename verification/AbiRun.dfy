/** The emitted C: what its statements mean, in 32-bit unsigned arithmetic, and a machine that
    executes them on a buffer through a moving cursor. */
module AbiRun {
  import opened Bytes
  import opened AbiSpec
  import opened AbiWords
  import opened AbiArgs
  import opened AbiGen

  /** The local variables that belong to one argument. */
  datatype Local = Local(dataLength: nat, filled: seq<nat>)

  /** The macro BOAT_ROUNDUP(v, 32) on a BUINT32: 0 is rounded to 0 by wrapping around twice. */
  function Roundup(v: nat): nat
  {
    ((v + U32 - 1) % U32 / 32 + 1) * 32 % U32
  }

  function LenOf(a: Arg): nat {
    match a
    case Elems(mems) => |mems|
    case Octets(b) => |b|
    case Strings(bs) => |bs|
  }

  /** The lengths that come with an argument fit a BUINT32, and so does its data length; the
      array of lengths has one place for every element. */
  predicate LocalOk(a: Arg, l: Local) {
    && LenOf(a) < U32 && l.dataLength < U32
    && (a.Strings? ==> |l.filled| == |a.bs| && Short(a.bs))
  }

  /** The first n local variables are those of the arguments. */
  predicate Shaped(args: seq<Arg>, locals: seq<Local>, n: nat)
    requires n <= |args| == |locals|
  {
    n == 0 || (Shaped(args, locals, n - 1) && LocalOk(args[n - 1], locals[n - 1]))
  }

  lemma {:induction false} ShapedAt(args: seq<Arg>, locals: seq<Local>, n: nat, i: nat)
    requires i < n <= |args| == |locals| && Shaped(args, locals, n)
    ensures LocalOk(args[i], locals[i])
  {
    if i < n - 1 {
      ShapedAt(args, locals, n - 1, i);
    }
  }

  lemma {:induction false} ShapedUpdate(args: seq<Arg>, locals: seq<Local>, n: nat, i: nat, l: Local)
    requires i < |args| == |locals| && n <= |args| && Shaped(args, locals, n) && LocalOk(args[i], l)
    ensures Shaped(args, locals[i := l], n)
  {
    if n > 0 {
      ShapedUpdate(args, locals, n - 1, i, l);
    }
  }

  // Sums

  predicate TermOk(t: Term, args: seq<Arg>) {
    t.i < |args|
  }

  function TermValue(t: Term, args: seq<Arg>, locals: seq<Local>): nat
    requires |locals| == |args|
  {
    if !TermOk(t, args) then 0 else
    match t
    case Space(i) => (Roundup(LenOf(args[i])) + 32) % U32
    case DataLength(i) => locals[i].dataLength
  }

  predicate TermsOk(terms: seq<Term>, args: seq<Arg>) {
    forall j :: 0 <= j < |terms| ==> TermOk(terms[j], args)
  }

  /** Sum of the first n terms. */
  function Total(terms: seq<Term>, n: nat, args: seq<Arg>, locals: seq<Local>): nat
    requires |locals| == |args| && n <= |terms|
  {
    if n == 0 then 0 else Total(terms, n - 1, args, locals) + TermValue(terms[n - 1], args, locals)
  }

  function Value(s: Sum, args: seq<Arg>, locals: seq<Local>): (v: nat)
    requires |locals| == |args|
    ensures v < U32
  {
    (Total(s.terms, |s.terms|, args, locals) + s.n) % U32
  }

  // Measuring

  function SpaceFor(b: seq<byte>): nat {
    (Roundup(|b|) + 32) % U32
  }

  function Spaces(bs: seq<seq<byte>>): (r: seq<nat>)
    ensures |r| == |bs|
  {
    seq(|bs|, i requires 0 <= i < |bs| => SpaceFor(bs[i]))
  }

  /** Sum of the first n numbers. */
  function SumOf(ns: seq<nat>, n: nat): nat
    requires n <= |ns|
  {
    if n == 0 then 0 else SumOf(ns, n - 1) + ns[n - 1]
  }

  predicate MeasureOk(m: Measure, args: seq<Arg>) {
    m.i < |args| && (m.MeasureBlobs? ==> args[m.i].Strings?)
  }

  /** The local variables of the measured argument. */
  function Measured(m: Measure, a: Arg, was: Local): Local {
    if m.MeasureBlobs? && a.Strings? then
      var filled := Spaces(a.bs);
      Local((was.dataLength + SumOf(filled, |filled|) + LenOf(a) * 32 + m.own) % U32, filled)
    else
      Local((was.dataLength + LenOf(a) * 32 + m.own) % U32, was.filled)
  }

  /** The first n statements fit. */
  predicate MeasuresOk(ms: seq<Measure>, n: nat, args: seq<Arg>)
    requires n <= |ms|
  {
    n == 0 || (MeasuresOk(ms, n - 1, args) && MeasureOk(ms[n - 1], args))
  }

  lemma {:induction false} MeasureOkAt(ms: seq<Measure>, n: nat, j: nat, args: seq<Arg>)
    requires j < n <= |ms| && MeasuresOk(ms, n, args)
    ensures MeasureOk(ms[j], args)
  {
    if j < n - 1 {
      MeasureOkAt(ms, n - 1, j, args);
    }
  }

  /** The local variables after the first n statements; statements that do not fit the
      arguments cannot be executed and are skipped. */
  function MeasuredLocals(ms: seq<Measure>, n: nat, args: seq<Arg>, locals: seq<Local>): (r: seq<Local>)
    requires |locals| == |args| && n <= |ms|
    ensures |r| == |args|
  {
    if n == 0 then locals
    else
      var m, before := ms[n - 1], MeasuredLocals(ms, n - 1, args, locals);
      if MeasureOk(m, args) then before[m.i := Measured(m, args[m.i], before[m.i])] else before
  }

  /** The size of the buffer after the first n statements. */
  function MeasuredSize(ms: seq<Measure>, n: nat, args: seq<Arg>, locals: seq<Local>, size: nat): nat
    requires |locals| == |args| && n <= |ms|
  {
    if n == 0 then size
    else
      var before := MeasuredSize(ms, n - 1, args, locals, size);
      if MeasureOk(ms[n - 1], args)
      then (before + MeasuredLocals(ms, n, args, locals)[ms[n - 1].i].dataLength) % U32 else before
  }

  // Writing

  /** A number in a word. */
  function NumberWord(v: nat): (s: seq<byte>)
    ensures |s| == WORD
  {
    BigEndian(WORD, v)
  }

  /** The word of an element; an element that is not of the type has none. */
  function WordFor(u: Use, e: Elem, mem: seq<byte>): (s: seq<byte>)
    ensures |s| == WORD
  {
    if Supported(e) && |mem| == SizeOf(e) then EmittedWord(u, e, mem) else Zeros(WORD)
  }

  function WordsOf(u: Use, e: Elem, mems: seq<seq<byte>>): seq<byte> {
    if mems == [] then [] else WordFor(u, e, mems[0]) + WordsOf(u, e, mems[1..])
  }

  /** The rounded length has not wrapped around. */
  predicate Rounds(b: seq<byte>) {
    |b| < U32 && |b| <= Roundup(|b|)
  }

  predicate AllRound(bs: seq<seq<byte>>) {
    bs == [] || (Rounds(bs[0]) && AllRound(bs[1..]))
  }

  function Padding(b: seq<byte>): (s: seq<byte>)
    ensures Rounds(b) ==> |s| == Roundup(|b|)
  {
    b + Zeros(if Rounds(b) then Roundup(|b|) - |b| else 0)
  }

  /** A word for every length in `filled`: where its element starts, the first one at `at`. */
  function OffsetsOf(filled: seq<nat>, at: nat): seq<byte> {
    if filled == [] then [] else NumberWord(at) + OffsetsOf(filled[1..], (at + filled[0]) % U32)
  }

  function BlobsOf(bs: seq<seq<byte>>): seq<byte> {
    if bs == [] then [] else NumberWord(|bs[0]|) + Padding(bs[0]) + BlobsOf(bs[1..])
  }

  function CountOf(c: Count, a: Arg): nat {
    if c.Times? then c.k else LenOf(a)
  }

  /** The elements a loop with this bound runs over. */
  function Elements(a: Arg, c: Count): seq<seq<byte>> {
    if a.Elems? && CountOf(c, a) <= |a.mems| then a.mems[..CountOf(c, a)] else []
  }

  predicate WriteOk(w: Write, args: seq<Arg>) {
    match w
    case Offset(s) => TermsOk(s.terms, args)
    case Words(i, u, e, c) =>
      i < |args| && ElemsFit(e, Elements(args[i], c))
    case Length(i) => i < |args|
    case Payload(i) => i < |args| && args[i].Octets? && Rounds(args[i].b)
    case InnerOffsets(i) => i < |args| && args[i].Strings?
    case InnerBlobs(i) => i < |args| && args[i].Strings? && AllRound(args[i].bs)
  }

  /** The first n statements fit. */
  predicate WritesOk(ws: seq<Write>, n: nat, args: seq<Arg>)
    requires n <= |ws|
  {
    n == 0 || (WritesOk(ws, n - 1, args) && WriteOk(ws[n - 1], args))
  }

  lemma {:induction false} WriteOkAt(ws: seq<Write>, n: nat, j: nat, args: seq<Arg>)
    requires j < n <= |ws| && WritesOk(ws, n, args)
    ensures WriteOk(ws[j], args)
  {
    if j < n - 1 {
      WriteOkAt(ws, n - 1, j, args);
    }
  }

  /** What a statement appends; nothing when it does not fit the arguments. */
  function Emit(w: Write, args: seq<Arg>, locals: seq<Local>): seq<byte>
    requires |locals| == |args|
  {
    match w
    case Offset(s) => NumberWord(Value(s, args, locals))
    case Words(i, u, e, c) => if i < |args| then WordsOf(u, e, Elements(args[i], c)) else []
    case Length(i) => if i < |args| then NumberWord(LenOf(args[i])) else []
    case Payload(i) => if i < |args| && args[i].Octets? then Padding(args[i].b) else []
    case InnerOffsets(i) => if i < |args| then OffsetsOf(locals[i].filled, LenOf(args[i]) * 32 % U32) else []
    case InnerBlobs(i) => if i < |args| && args[i].Strings? then BlobsOf(args[i].bs) else []
  }

  function Roundups(bs: seq<seq<byte>>): (r: seq<nat>)
    ensures |r| == |bs|
  {
    seq(|bs|, i requires 0 <= i < |bs| => Roundup(|bs[i]|))
  }

  /** Writing the elements overwrites their measured lengths. */
  function After(w: Write, args: seq<Arg>, locals: seq<Local>): (r: seq<Local>)
    requires |locals| == |args|
    ensures |r| == |args|
  {
    if w.InnerBlobs? && w.i < |args| && args[w.i].Strings? then locals[w.i := locals[w.i].(filled := Roundups(args[w.i].bs))] else locals
  }

  /** The local variables behind the first n statements. */
  function LocalsAfter(ws: seq<Write>, n: nat, args: seq<Arg>, locals: seq<Local>): (r: seq<Local>)
    requires |locals| == |args| && n <= |ws|
    ensures |r| == |args|
  {
    if n == 0 then locals else After(ws[n - 1], args, LocalsAfter(ws, n - 1, args, locals))
  }

  /** What the first n statements append. */
  function Written(ws: seq<Write>, n: nat, args: seq<Arg>, locals: seq<Local>): seq<byte>
    requires |locals| == |args| && n <= |ws|
  {
    if n == 0 then []
    else Written(ws, n - 1, args, locals) + Emit(ws[n - 1], args, LocalsAfter(ws, n - 1, args, locals))
  }

  /** Output only grows. */
  lemma WrittenSnoc(ws: seq<Write>, n: nat, args: seq<Arg>, locals: seq<Local>) returns (piece: seq<byte>)
    requires |locals| == |args| && 0 < n <= |ws|
    ensures Written(ws, n, args, locals) == Written(ws, n - 1, args, locals) + piece
  {
    piece := Emit(ws[n - 1], args, LocalsAfter(ws, n - 1, args, locals));
  }

  lemma {:induction false} WritesGrow(ws: seq<Write>, m: nat, n: nat, args: seq<Arg>, locals: seq<Local>)
    requires |locals| == |args| && m <= n <= |ws|
    ensures |Written(ws, m, args, locals)| <= |Written(ws, n, args, locals)|
  {
    if m < n {
      WritesGrow(ws, m, n - 1, args, locals);
      var piece := WrittenSnoc(ws, n, args, locals);
    }
  }

  // The program

  predicate ProgramOk(p: Program, args: seq<Arg>) {
    && TermsOk(p.size.terms, args)
    && MeasuresOk(p.measures, |p.measures|, args)
    && WritesOk(p.writes, |p.writes|, args)
  }

  /** The local variables behind the measuring statements. */
  function SizedLocals(p: Program, args: seq<Arg>, locals: seq<Local>): (r: seq<Local>)
    requires |locals| == |args|
    ensures |r| == |args|
  {
    MeasuredLocals(p.measures, |p.measures|, args, locals)
  }

  /** data_field.field_len when the buffer is allocated. */
  function FieldLen(p: Program, args: seq<Arg>, locals: seq<Local>): nat
    requires |locals| == |args|
  {
    MeasuredSize(p.measures, |p.measures|, args, locals, Value(p.size, args, locals))
  }

  function Output(p: Program, args: seq<Arg>, locals: seq<Local>): seq<byte>
    requires |locals| == |args|
  {
    Written(p.writes, |p.writes|, args, SizedLocals(p, args, locals))
  }

  /** The function selector and the output fill the buffer exactly. */
  predicate Exact(p: Program, args: seq<Arg>, locals: seq<Local>)
    requires |locals| == |args|
  {
    FieldLen(p, args, locals) == 4 + |Output(p, args, locals)|
  }
}
