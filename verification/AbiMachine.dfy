/** Execution of the emitted C on a real buffer. */
module AbiMachine {
  import opened Bytes
  import opened AbiWords
  import opened AbiArgs
  import opened AbiGen
  import opened AbiPointers
  import opened AbiRun
  import CMemory

  /** The buffer data_field.field_ptr and the cursor data_offset_ptr. */
  class Cursor {
    const buf: array<byte>
    var pos: nat

    ghost predicate Valid()
      reads this
    {
      pos <= buf.Length
    }

    /** What lies before the cursor. */
    ghost function Out(): seq<byte>
      requires Valid()
      reads this, buf
    {
      buf[..pos]
    }

    constructor (size: nat)
      ensures Valid() && pos == 0 && buf.Length == size && fresh(buf)
    {
      buf := new byte[size](_ => 0);
      pos := 0;
    }

    /** memset(ptr, fill, n); memcpy(ptr + at, src, |src|); ptr += n */
    method Put(n: nat, fill: byte, at: nat, src: seq<byte>)
      requires Valid() && pos + n <= buf.Length && at + |src| <= n
      modifies this, buf
      ensures Valid() && Out() == old(Out()) + (Fill(at, fill) + src + Fill(n - at - |src|, fill))
    {
      ghost var m0 := buf[..];
      CMemory.Memset(buf, pos, n, fill);
      ghost var m1 := buf[..];
      CMemory.Memcpy(buf, pos + at, src);
      Laid(m0, m1, buf[..], pos, n, fill, at, src);
      pos := pos + n;
    }

    lemma Laid(m0: seq<byte>, m1: seq<byte>, m2: seq<byte>, p: nat, n: nat, fill: byte, at: nat, src: seq<byte>)
      requires p + n <= |m0| && at + |src| <= n
      requires m1 == m0[..p] + Fill(n, fill) + m0[p + n..]
      requires m2 == m1[..p + at] + src + m1[p + at + |src|..]
      ensures m2[..p + n] == m0[..p] + (Fill(at, fill) + src + Fill(n - at - |src|, fill))
    {
      assert m1[..p + at] == m0[..p] + Fill(at, fill);
      assert m1[p + at + |src|..p + n] == Fill(n - at - |src|, fill);
    }

    /** A BUINT32, its octets reversed, at the end of a word of zeros. */
    method PutNumber(v: nat)
      requires Valid() && pos + 32 <= buf.Length && v < U32
      modifies this, buf
      ensures Valid() && Out() == old(Out()) + NumberWord(v)
    {
      var image := CMemory.Local(LittleEndian(4, v));
      CMemory.ChangeEndian(image);
      ReverseTwice(BigEndian(4, v));
      Put(32, 0, 28, image[..]);
      assert Fill(28, 0) + BigEndian(4, v) + Fill(0, 0) == Zeros(28) + BigEndian(4, v);
      ShortWord(v);
    }

    /** One element of a value type. */
    method PutElem(u: Use, e: Elem, mem: seq<byte>)
      requires Valid() && pos + 32 <= buf.Length && Supported(e) && |mem| == SizeOf(e)
      modifies this, buf
      ensures Valid() && Out() == old(Out()) + EmittedWord(u, e, mem)
    {
      var image := CMemory.Local(mem);
      var fill: byte := 0;
      if SignTested(u, e) {
        if Negative(e, mem) {
          fill := 0xFF;
        }
      }
      if Reversed(u, e) {
        CMemory.ChangeEndian(image);
      }
      if RightAligned(e) {
        Put(32, fill, 32 - |mem|, image[..]);
        assert Fill(32 - |mem|, fill) + image[..] + Fill(0, fill) == EmittedWord(u, e, mem);
      } else {
        Put(32, fill, 0, image[..]);
        assert Fill(0, fill) + image[..] + Fill(32 - |mem|, fill) == EmittedWord(u, e, mem);
      }
    }

    /** An argument passed by pointer: its octets are reversed in place, in the caller's memory. */
    method PutPointee(e: Elem, a: array<byte>)
      requires Valid() && pos + 32 <= buf.Length && a != buf
      requires Supported(e) && !IsNative(e) && a.Length == SizeOf(e)
      modifies this, buf, a
      ensures Valid() && Out() == old(Out()) + EmittedWord(Single, e, old(a[..]))
      ensures a[..] == Turned(old(a[..]), Reversed(Single, e))
    {
      ghost var mem := a[..];
      if Reversed(Single, e) {
        CMemory.ChangeEndian(a);
      }
      if RightAligned(e) {
        Put(32, 0, 32 - a.Length, a[..]);
        assert Fill(32 - |mem|, 0) + Turned(mem, Reversed(Single, e)) + Fill(0, 0) == EmittedWord(Single, e, mem);
      } else {
        Put(32, 0, 0, a[..]);
        assert Fill(0, 0) + Turned(mem, Reversed(Single, e)) + Fill(32 - |mem|, 0) == EmittedWord(Single, e, mem);
      }
    }

    /** Contents of a byte string, zero-filled to a whole number of words. */
    method PutPadded(b: seq<byte>)
      requires Rounds(b) && Valid() && pos + Roundup(|b|) <= buf.Length
      modifies this, buf
      ensures Valid() && Out() == old(Out()) + Padding(b)
    {
      Put(Roundup(|b|), 0, 0, b);
      assert Fill(0, 0) + b + Fill(Roundup(|b|) - |b|, 0) == Padding(b);
    }

    method PutWords(u: Use, e: Elem, mems: seq<seq<byte>>)
      requires ElemsFit(e, mems) && Valid() && pos + |WordsOf(u, e, mems)| <= buf.Length
      modifies this, buf
      ensures Valid() && Out() == old(Out()) + WordsOf(u, e, mems)
    {
      var i := 0;
      while i < |mems|
        invariant 0 <= i <= |mems| && Valid() && ElemsFit(e, mems[i..])
        invariant Out() + WordsOf(u, e, mems[i..]) == old(Out()) + WordsOf(u, e, mems)
      {
        ghost var before, rest := Out(), WordsOf(u, e, mems[i + 1..]);
        assert mems[i..][1..] == mems[i + 1..];
        assert WordsOf(u, e, mems[i..]) == EmittedWord(u, e, mems[i]) + rest;
        StillFits(before, EmittedWord(u, e, mems[i]), rest, old(Out()), WordsOf(u, e, mems));
        PutElem(u, e, mems[i]);
        i := i + 1;
      }
    }

    /** Written so far, next and rest make up a known whole. */
    lemma StillFits(done: seq<byte>, next: seq<byte>, rest: seq<byte>, start: seq<byte>, whole: seq<byte>)
      requires done + (next + rest) == start + whole
      ensures |done| + |next| <= |start| + |whole|
      ensures done + next + rest == start + whole
    {
      ConcatAssoc(done, next, rest);
      assert |done + (next + rest)| == |start + whole|;
    }

    /** Offsets of the elements of an array of byte strings. */
    method PutOffsets(n: nat, filled: seq<nat>)
      requires |filled| == n < U32
      requires Valid() && pos + |OffsetsOf(filled, n * 32 % U32)| <= buf.Length
      modifies this, buf
      ensures Valid() && Out() == old(Out()) + OffsetsOf(filled, n * 32 % U32)
    {
      var location := new nat[n];
      ghost var whole := OffsetsOf(filled, n * 32 % U32);
      ghost var next: nat := n * 32 % U32;
      var i := 0;
      while i < n
        invariant 0 <= i <= n && Valid() && next < U32
        invariant next == if i == 0 then n * 32 % U32 else (location[i - 1] + filled[i - 1]) % U32
        invariant Out() + OffsetsOf(filled[i..], next) == old(Out()) + whole
      {
        if i == 0 {
          location[i] := n * 32 % U32;
        } else {
          location[i] := (location[i - 1] + filled[i - 1]) % U32;
        }
        assert location[i] == next;
        ghost var after := (next + filled[i]) % U32;
        assert filled[i..][1..] == filled[i + 1..];
        assert OffsetsOf(filled[i..], next) == NumberWord(next) + OffsetsOf(filled[i + 1..], after);
        StillFits(Out(), NumberWord(next), OffsetsOf(filled[i + 1..], after), old(Out()), whole);
        PutNumber(location[i]);
        next := after;
        i := i + 1;
      }
    }

    /** Length and contents of every element; returns what ends up in `filled`. */
    method PutBlobs(bs: seq<seq<byte>>, measured: seq<nat>) returns (filled: seq<nat>)
      requires |measured| == |bs| && AllRound(bs)
      requires Valid() && pos + |BlobsOf(bs)| <= buf.Length
      modifies this, buf
      ensures Valid() && Out() == old(Out()) + BlobsOf(bs)
      ensures filled == Roundups(bs)
    {
      filled := measured;
      var i := 0;
      while i < |bs|
        invariant 0 <= i <= |bs| && Valid() && |filled| == |bs| && AllRound(bs[i..])
        invariant filled[..i] == Roundups(bs)[..i]
        invariant Out() + BlobsOf(bs[i..]) == old(Out()) + BlobsOf(bs)
      {
        ghost var next, rest := NumberWord(|bs[i]|) + Padding(bs[i]), BlobsOf(bs[i + 1..]);
        assert bs[i..][1..] == bs[i + 1..];
        assert BlobsOf(bs[i..]) == next + rest;
        StillFits(Out(), next, rest, old(Out()), BlobsOf(bs));
        ConcatAssoc(Out(), NumberWord(|bs[i]|), Padding(bs[i]));
        PutNumber(|bs[i]|);
        filled := filled[i := Roundup(|bs[i]|)];
        PutPadded(bs[i]);
        i := i + 1;
      }
    }
  }

  lemma WrapAdd(v: nat, sum: nat, x: nat)
    requires v == sum % U32
    ensures (v + x) % U32 == (sum + x) % U32
  {
  }

  /** The measuring loop over an array of byte strings. */
  method MeasureStrings(bs: seq<seq<byte>>, start: nat, places: seq<nat>) returns (dataLength: nat, filled: seq<nat>)
    requires |places| == |bs| && start < U32 && Short(bs)
    ensures filled == Spaces(bs)
    ensures dataLength == (start + SumOf(Spaces(bs), |bs|)) % U32
  {
    dataLength, filled := start, places;
    ghost var all := Spaces(bs);
    var i := 0;
    while i < |bs|
      invariant 0 <= i <= |bs| == |filled|
      invariant filled[..i] == all[..i]
      invariant dataLength == (start + SumOf(all, i)) % U32
    {
      filled := filled[i := SpaceFor(bs[i])];
      WrapAdd(dataLength, start + SumOf(all, i), all[i]);
      dataLength := (dataLength + filled[i]) % U32;
      i := i + 1;
    }
    assert all[..i] == all;
  }

  /** A call of the emitted function: its arguments and its local variables. */
  class Call {
    // The arguments as given, and the pointers among them
    const given: seq<Arg>
    const ptrs: Pointers
    // The arguments as each stands when its turn to be written comes
    ghost const args: seq<Arg>
    var locals: seq<Local>
    // data_field.field_len
    var size: nat

    ghost predicate Valid()
      reads this
    {
      |locals| == |args| && Shaped(args, locals, |args|) && size < U32 && Agree(given, args, ptrs)
    }

    constructor (given: seq<Arg>, ptrs: Pointers, ghost args: seq<Arg>, locals: seq<Local>)
      requires |locals| == |args| && Shaped(args, locals, |args|) && Agree(given, args, ptrs)
      ensures Valid() && this.given == given && this.ptrs == ptrs && this.args == args && this.locals == locals
    {
      this.given := given;
      this.ptrs := ptrs;
      this.args := args;
      this.locals := locals;
      size := 0;
    }

    method Evaluate(s: Sum) returns (v: nat)
      requires Valid() && TermsOk(s.terms, args)
      ensures v == Value(s, args, locals)
    {
      v := 0;
      var i := 0;
      while i < |s.terms|
        invariant 0 <= i <= |s.terms|
        invariant v == Total(s.terms, i, args, locals) % U32
      {
        assert LenOf(given[s.terms[i].i]) == LenOf(args[s.terms[i].i]);
        WrapAdd(v, Total(s.terms, i, args, locals), TermValue(s.terms[i], args, locals));
        v := (v + TermValue(s.terms[i], given, locals)) % U32;
        i := i + 1;
      }
      WrapAdd(v, Total(s.terms, i, args, locals), s.n);
      v := (v + s.n) % U32;
    }

    /** Computes one data length and adds it to the size. */
    method Execute(m: Measure)
      requires Valid() && MeasureOk(m, args)
      modifies this
      ensures Valid() && locals == old(locals)[m.i := Measured(m, args[m.i], old(locals)[m.i])]
      ensures size == (old(size) + locals[m.i].dataLength) % U32
    {
      ShapedAt(args, locals, |args|, m.i);
      assert LenOf(given[m.i]) == LenOf(args[m.i]);
      var n, dataLength, filled := LenOf(given[m.i]), locals[m.i].dataLength, locals[m.i].filled;
      if m.MeasureBlobs? {
        ghost var spaces := SumOf(Spaces(args[m.i].bs), n);
        var was := dataLength;
        dataLength, filled := MeasureStrings(given[m.i].bs, was, filled);
        WrapAdd(dataLength, was + spaces, n * 32 + m.own);
      }
      dataLength := (dataLength + n * 32 + m.own) % U32;
      ShapedUpdate(args, locals, |args|, m.i, Local(dataLength, filled));
      locals := locals[m.i := Local(dataLength, filled)];
      size := (size + dataLength) % U32;
    }

    /** Executes one writing statement that does not write behind a pointer. */
    method Write(w: Write, out: Cursor)
      requires Valid() && WriteOk(w, args) && !Pointed(w, ptrs)
      requires out.Valid() && out.pos + |Emit(w, args, locals)| <= out.buf.Length
      modifies this`locals, out, out.buf
      ensures Valid() && locals == After(w, args, old(locals))
      ensures out.Valid() && out.Out() == old(out.Out()) + Emit(w, args, old(locals))
    {
      if !w.Offset? {
        ShapedAt(args, locals, |args|, w.i);
        assert LenOf(given[w.i]) == LenOf(args[w.i]);
      }
      match w
      case Offset(s) =>
        var v := Evaluate(s);
        out.PutNumber(v);
      case Words(i, u, e, c) =>
        out.PutWords(u, e, Elements(given[i], c));
      case Length(i) =>
        out.PutNumber(LenOf(given[i]));
      case Payload(i) =>
        out.PutPadded(given[i].b);
      case InnerOffsets(i) =>
        out.PutOffsets(|given[i].bs|, locals[i].filled);
      case InnerBlobs(i) =>
        var filled := out.PutBlobs(given[i].bs, locals[i].filled);
        ShapedUpdate(args, locals, |args|, i, locals[i].(filled := filled));
        locals := locals[i := locals[i].(filled := filled)];
    }

    method MeasureArguments(ms: seq<Measure>)
      requires Valid() && MeasuresOk(ms, |ms|, args)
      modifies this
      ensures Valid() && locals == MeasuredLocals(ms, |ms|, args, old(locals))
      ensures size == MeasuredSize(ms, |ms|, args, old(locals), old(size))
    {
      ghost var start, from := locals, size;
      var i := 0;
      while i < |ms|
        invariant 0 <= i <= |ms| && Valid()
        invariant locals == MeasuredLocals(ms, i, args, start)
        invariant size == MeasuredSize(ms, i, args, start, from)
      {
        MeasureOkAt(ms, |ms|, i, args);
        Execute(ms[i]);
        i := i + 1;
      }
    }

    /** What the pointers point to after i statements. */
    ghost predicate Pointees(ws: seq<Write>, i: nat)
      requires i <= |ws| && Agree(given, args, ptrs)
      reads ptrs.Values
    {
      forall k :: k in ptrs ==> Elems([ptrs[k][..]]) == Standing(ws, i, ptrs, given[k], k)
    }

    /** The machine is where it is after i statements. */
    ghost predicate Reached(ws: seq<Write>, i: nat, out: Cursor, start: seq<Local>, before: seq<byte>)
      requires i <= |ws| && |start| == |args| && out.Valid() && Agree(given, args, ptrs)
      reads this, out, out.buf, ptrs.Values
    {
      && locals == LocalsAfter(ws, i, args, start) && out.Out() == before + Written(ws, i, args, start)
      && Pointees(ws, i) && out.buf !in ptrs.Values
    }

    /** Executes one writing statement that writes behind a pointer. */
    method WritePointee(ws: seq<Write>, j: nat, out: Cursor)
      requires Valid() && j < |ws| && Pointed(ws[j], ptrs) && WriteOk(ws[j], args)
      requires InTurn(ws, |ws|, ptrs, given, args) && Pointees(ws, j) && !IsNative(ws[j].e)
      requires out.Valid() && out.pos + |Emit(ws[j], args, locals)| <= out.buf.Length && out.buf !in ptrs.Values
      modifies out, out.buf, ptrs[ws[j].i]
      ensures out.Valid() && out.Out() == old(out.Out()) + Emit(ws[j], args, locals)
      ensures Pointees(ws, j + 1)
    {
      var w := ws[j];
      InTurnAt(ws, |ws|, j, ptrs, given, args);
      var a := ptrs[w.i];
      PointeeWord(w, args, locals, a[..]);
      out.PutPointee(w.e, a);
      forall k | k in ptrs ensures Elems([ptrs[k][..]]) == Standing(ws, j + 1, ptrs, given[k], k) {
        TurnedAgain(given[k].mems[0], Flipped(ws, j, ptrs, ptrs[k]));
      }
    }

    method WriteNext(ws: seq<Write>, i: nat, out: Cursor, ghost start: seq<Local>, ghost before: seq<byte>)
      requires Valid() && i < |ws| && |start| == |args| && WritesOk(ws, |ws|, args)
      requires InTurn(ws, |ws|, ptrs, given, args) && PointeesOk(ws, ptrs)
      requires out.Valid() && Reached(ws, i, out, start, before)
      requires |before| + |Written(ws, |ws|, args, start)| <= out.buf.Length
      modifies this`locals, out, out.buf, ptrs.Values
      ensures Valid() && out.Valid() && Reached(ws, i + 1, out, start, before)
    {
      WriteOkAt(ws, |ws|, i, args);
      WritesGrow(ws, i + 1, |ws|, args, start);
      ConcatAssoc(before, Written(ws, i, args, start), Emit(ws[i], args, locals));
      WriteAny(ws, i, out);
    }

    method WriteAny(ws: seq<Write>, i: nat, out: Cursor)
      requires Valid() && i < |ws| && WriteOk(ws[i], args)
      requires InTurn(ws, |ws|, ptrs, given, args) && PointeesOk(ws, ptrs) && Pointees(ws, i)
      requires out.Valid() && out.pos + |Emit(ws[i], args, locals)| <= out.buf.Length && out.buf !in ptrs.Values
      modifies this`locals, out, out.buf, ptrs.Values
      ensures Valid() && locals == After(ws[i], args, old(locals)) && Pointees(ws, i + 1)
      ensures out.Valid() && out.Out() == old(out.Out()) + Emit(ws[i], args, old(locals))
    {
      if Pointed(ws[i], ptrs) {
        WritePointee(ws, i, out);
      } else {
        Write(ws[i], out);
      }
    }

    method WriteArguments(ws: seq<Write>, out: Cursor)
      requires Valid() && WritesOk(ws, |ws|, args)
      requires InTurn(ws, |ws|, ptrs, given, args) && PointeesOk(ws, ptrs) && Pointees(ws, 0)
      requires out.Valid() && out.pos + |Written(ws, |ws|, args, locals)| <= out.buf.Length && out.buf !in ptrs.Values
      modifies this`locals, out, out.buf, ptrs.Values
      ensures Valid() && out.Valid() && out.Out() == old(out.Out()) + Written(ws, |ws|, args, old(locals))
      ensures Pointees(ws, |ws|)
    {
      ghost var start, before := locals, out.Out();
      var i := 0;
      while i < |ws|
        invariant 0 <= i <= |ws| && Valid() && out.Valid()
        invariant Reached(ws, i, out, start, before)
      {
        WriteNext(ws, i, out, start, before);
        i := i + 1;
      }
    }

    /** The whole function up to the use of the buffer, with `selector` for the first four octets
        of the hash of the prototype. No write leaves the buffer, the cursor ends at its end, and
        what is written is the output for the arguments as they stand at their turns. */
    /** The size pass and the measuring pass. */
    method MeasureSize(p: Program)
      requires Valid() && ProgramOk(p, args)
      modifies this
      ensures Valid() && locals == SizedLocals(p, args, old(locals)) && size == FieldLen(p, args, old(locals))
    {
      size := Evaluate(p.size);
      MeasureArguments(p.measures);
    }

    method Run(p: Program, selector: seq<byte>) returns (field: array<byte>)
      requires Valid() && ProgramOk(p, args) && Exact(p, args, locals) && |selector| == 4
      requires InTurn(p.writes, |p.writes|, ptrs, given, args) && PointeesOk(p.writes, ptrs) && Pointees(p.writes, 0)
      modifies this, ptrs.Values
      ensures field[..] == selector + Output(p, args, old(locals))
      ensures Valid() && Pointees(p.writes, |p.writes|)
    {
      MeasureSize(p);
      var out := new Cursor(size);
      out.Put(4, 0, 0, selector);
      assert out.Out() == selector;
      WriteArguments(p.writes, out);
      field := out.buf;
      assert out.pos == field.Length;
    }
  }

  /** Statements that write behind pointers are for elements that are passed by pointer. */
  predicate PointeesOk(ws: seq<Write>, ptrs: Pointers) {
    forall j :: 0 <= j < |ws| ==> Pointed(ws[j], ptrs) ==> !IsNative(ws[j].e)
  }

  lemma PointeeWord(w: Write, args: seq<Arg>, locals: seq<Local>, mem: seq<byte>)
    requires |locals| == |args| && w.Words? && w.u.Single? && w.count == Times(1) && w.i < |args|
    requires WriteOk(w, args) && args[w.i] == Elems([mem])
    ensures Supported(w.e) && |mem| == SizeOf(w.e)
    ensures Emit(w, args, locals) == EmittedWord(Single, w.e, mem)
  {
    assert Elements(args[w.i], w.count) == [mem];
    assert [mem][1..] == [];
    assert WordsOf(Single, w.e, [mem]) == EmittedWord(Single, w.e, mem) + [];
  }
}
