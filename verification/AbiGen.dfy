/** The generator: from the argument types of a contract function to the statements of the C
    function it emits. The names of arguments are their positions. */
module AbiGen {
  import opened AbiArgs
  import opened AbiWords

  /** BOAT_ROUNDUP(<length of argument i>, 32) + 32, or the variable <argument i>_data_length. */
  datatype Term = Space(i: nat) | DataLength(i: nat)

  datatype Sum = Sum(terms: seq<Term>, n: nat)

  /** The bound of an emitted loop: a literal, or the length that came with the argument. */
  datatype Count = Times(k: nat) | Len

  /** The statements that compute <argument i>_data_length and add it to the size of the buffer;
      `own` counts the octets beside offsets and elements. */
  datatype Measure = MeasureBlobs(i: nat, own: nat) | MeasureWords(i: nat, own: nat)

  /** The statements that write through the moving cursor. */
  datatype Write =
    | Offset(sum: Sum)
    | Words(i: nat, u: Use, e: Elem, count: Count)
    | Length(i: nat)
    | Payload(i: nat)
    | InnerOffsets(i: nat)
    | InnerBlobs(i: nat)

  datatype Program = Program(size: Sum, measures: seq<Measure>, writes: seq<Write>)

  /** bytes[], string[], bytes[k], string[k]. */
  predicate IsBlobs(t: ArgTy) {
    t.BytesArray? || t.BytesFixedArray?
  }

  /** Types whose size is only known from a computed data length. */
  predicate IsMeasured(t: ArgTy) {
    IsBlobs(t) || t.DynArray?
  }

  /** Types with a tail. */
  predicate HasTail(t: ArgTy) {
    IsMeasured(t) || t.Bytes?
  }

  // What the loops of the generator produce for the first n arguments

  function HeadWords(ts: seq<ArgTy>, n: nat): nat
    requires n <= |ts|
  {
    if n == 0 then 0 else HeadWords(ts, n - 1) + (if ts[n - 1].FixedArray? then ts[n - 1].k else 1)
  }

  function SizeTerms(ts: seq<ArgTy>, n: nat): seq<Term>
    requires n <= |ts|
  {
    if n == 0 then []
    else if ts[n - 1].Bytes? then SizeTerms(ts, n - 1) + [Space(n - 1)]
    else SizeTerms(ts, n - 1)
  }

  function OffsetTerms(ts: seq<ArgTy>, n: nat): seq<Term>
    requires n <= |ts|
  {
    if n == 0 then []
    else if IsMeasured(ts[n - 1]) then OffsetTerms(ts, n - 1) + [DataLength(n - 1)]
    else if ts[n - 1].Bytes? then OffsetTerms(ts, n - 1) + [Space(n - 1)]
    else OffsetTerms(ts, n - 1)
  }

  function OffsetSum(ts: seq<ArgTy>, index: nat): Sum
    requires index <= |ts|
  {
    Sum(OffsetTerms(ts, index), HeadWords(ts, |ts|) * 32)
  }

  function MeasureOf(t: ArgTy, i: nat): Measure {
    if IsBlobs(t) then MeasureBlobs(i, if t.BytesFixedArray? then 0 else 32) else MeasureWords(i, 32)
  }

  function Measures(ts: seq<ArgTy>, n: nat): seq<Measure>
    requires n <= |ts|
  {
    if n == 0 then []
    else if IsMeasured(ts[n - 1]) then Measures(ts, n - 1) + [MeasureOf(ts[n - 1], n - 1)]
    else Measures(ts, n - 1)
  }

  function HeadOf(ts: seq<ArgTy>, i: nat): Write
    requires i < |ts|
  {
    match ts[i]
    case Scalar(e) => Words(i, Single, e, Times(1))
    case FixedArray(e, k) => Words(i, InFixed, e, Times(k))
    case _ => Offset(OffsetSum(ts, i))
  }

  function HeadWrites(ts: seq<ArgTy>, n: nat): seq<Write>
    requires n <= |ts|
  {
    if n == 0 then [] else HeadWrites(ts, n - 1) + [HeadOf(ts, n - 1)]
  }

  function TailOf(t: ArgTy, i: nat): seq<Write> {
    match t
    case BytesArray(_) => [Length(i), InnerOffsets(i), InnerBlobs(i)]
    case BytesFixedArray(_, _) => [InnerOffsets(i), InnerBlobs(i)]
    case Bytes(_) => [Length(i), Payload(i)]
    case DynArray(e) => [Length(i), Words(i, InDynamic, e, Len)]
    case _ => []
  }

  function TailWrites(ts: seq<ArgTy>, n: nat): seq<Write>
    requires n <= |ts|
  {
    if n == 0 then [] else TailWrites(ts, n - 1) + TailOf(ts[n - 1], n - 1)
  }

  function Compile(ts: seq<ArgTy>): Program {
    Program(Sum(SizeTerms(ts, |ts|), HeadWords(ts, |ts|) * 32 + 4),
            Measures(ts, |ts|),
            HeadWrites(ts, |ts|) + TailWrites(ts, |ts|))
  }

  // The loops

  /** gen_nonFixed_mallocSize_exp */
  method GenSizeTerms(ts: seq<ArgTy>) returns (terms: seq<Term>)
    ensures terms == SizeTerms(ts, |ts|)
  {
    terms := [];
    var i := 0;
    while i < |ts|
      invariant 0 <= i <= |ts|
      invariant terms == SizeTerms(ts, i)
    {
      if IsMeasured(ts[i]) {
        // the length is computed later
      } else if ts[i].Bytes? {
        terms := terms + [Space(i)];
      }
      i := i + 1;
    }
  }

  /** gen_Fixed_mallocSize_exp */
  method GenHeadWords(ts: seq<ArgTy>) returns (count: nat)
    ensures count == HeadWords(ts, |ts|)
  {
    count := 0;
    var i := 0;
    while i < |ts|
      invariant 0 <= i <= |ts|
      invariant count == HeadWords(ts, i)
    {
      if ts[i].FixedArray? {
        count := count + ts[i].k;
      } else {
        count := count + 1;
      }
      i := i + 1;
    }
  }

  /** get_nonFixed_offset */
  method GenOffset(ts: seq<ArgTy>, index: nat) returns (sum: Sum)
    requires index <= |ts|
    ensures sum == OffsetSum(ts, index)
  {
    var offset, i := 0, 0;
    while i < |ts|
      invariant 0 <= i <= |ts|
      invariant offset == HeadWords(ts, i) * 32
    {
      if ts[i].FixedArray? {
        offset := offset + ts[i].k * 32;
      } else {
        offset := offset + 32;
      }
      i := i + 1;
    }
    var terms := [];
    i := 0;
    while i < index
      invariant 0 <= i <= index
      invariant terms == OffsetTerms(ts, i)
    {
      if IsMeasured(ts[i]) {
        terms := terms + [DataLength(i)];
      } else if ts[i].Bytes? {
        terms := terms + [Space(i)];
      }
      i := i + 1;
    }
    sum := Sum(terms, offset);
  }

  /** generate_nonFixedArray_length */
  method GenMeasures(ts: seq<ArgTy>) returns (ms: seq<Measure>)
    ensures ms == Measures(ts, |ts|)
  {
    ms := [];
    var i := 0;
    while i < |ts|
      invariant 0 <= i <= |ts|
      invariant ms == Measures(ts, i)
    {
      if IsBlobs(ts[i]) {
        if ts[i].BytesFixedArray? {
          ms := ms + [MeasureBlobs(i, 0)];
        } else {
          ms := ms + [MeasureBlobs(i, 32)];
        }
      } else if ts[i].DynArray? {
        ms := ms + [MeasureWords(i, 32)];
      }
      i := i + 1;
    }
  }

  /** generate_func_body, first pass over the arguments */
  method GenHeads(ts: seq<ArgTy>) returns (ws: seq<Write>)
    ensures ws == HeadWrites(ts, |ts|)
  {
    ws := [];
    var i := 0;
    while i < |ts|
      invariant 0 <= i <= |ts|
      invariant ws == HeadWrites(ts, i)
    {
      if HasTail(ts[i]) {
        var sum := GenOffset(ts, i);
        ws := ws + [Offset(sum)];
      } else if ts[i].FixedArray? {
        ws := ws + [Words(i, InFixed, ts[i].e, Times(ts[i].k))];
      } else {
        ws := ws + [Words(i, Single, ts[i].e, Times(1))];
      }
      i := i + 1;
    }
  }

  /** generate_func_body, second pass */
  method GenTails(ts: seq<ArgTy>) returns (ws: seq<Write>)
    ensures ws == TailWrites(ts, |ts|)
  {
    ws := [];
    var i := 0;
    while i < |ts|
      invariant 0 <= i <= |ts|
      invariant ws == TailWrites(ts, i)
    {
      ghost var before := ws;
      if IsBlobs(ts[i]) {
        if ts[i].BytesArray? {
          ws := ws + [Length(i)];
        }
        ws := ws + [InnerOffsets(i)];
        ws := ws + [InnerBlobs(i)];
      } else if ts[i].Bytes? {
        ws := ws + [Length(i)];
        ws := ws + [Payload(i)];
      } else if ts[i].DynArray? {
        ws := ws + [Length(i)];
        ws := ws + [Words(i, InDynamic, ts[i].e, Len)];
      }
      assert ws == before + TailOf(ts[i], i);
      i := i + 1;
    }
  }

  method Generate(ts: seq<ArgTy>) returns (p: Program)
    ensures p == Compile(ts)
  {
    var terms := GenSizeTerms(ts);
    var count := GenHeadWords(ts);
    var measures := GenMeasures(ts);
    var heads := GenHeads(ts);
    var tails := GenTails(ts);
    p := Program(Sum(terms, count * 32 + 4), measures, heads + tails);
  }
}
