/** Arguments passed by pointer. The emitted code reverses the octets of such an argument in
    place, in the caller's memory, when its turn to be written comes; what a later argument then
    holds depends on whether it was passed the same pointer. */
module AbiPointers {
  import opened Bytes
  import opened AbiWords
  import opened AbiArgs
  import opened AbiGen

  /** The pointers among the arguments, by position. */
  type Pointers = map<nat, array<byte>>

  /** Scalars that are octet arrays in C are passed by pointer, the others by value. */
  predicate ByPointer(t: ArgTy) {
    t.Scalar? && !IsNative(t.e)
  }

  function Turned(mem: seq<byte>, flipped: bool): (r: seq<byte>)
    ensures |r| == |mem|
  {
    if flipped then Reverse(mem) else mem
  }

  lemma TurnedAgain(mem: seq<byte>, flipped: bool)
    ensures Reverse(Turned(mem, flipped)) == Turned(mem, !flipped)
  {
    ReverseTwice(mem);
  }

  /** Whether a statement writes the argument behind a pointer. */
  predicate Pointed(w: Write, ptrs: Pointers) {
    w.Words? && w.i in ptrs
  }

  /** Whether a statement reverses what p points to. */
  predicate Reverses(w: Write, ptrs: Pointers, p: array<byte>) {
    Pointed(w, ptrs) && ptrs[w.i] == p && Reversed(Single, w.e)
  }

  /** Whether the first n statements reverse what p points to an odd number of times. */
  predicate Flipped(ws: seq<Write>, n: nat, ptrs: Pointers, p: array<byte>)
    requires n <= |ws|
  {
    n > 0 && (Flipped(ws, n - 1, ptrs, p) != Reverses(ws[n - 1], ptrs, p))
  }

  predicate IsPointee(a: Arg) {
    a.Elems? && |a.mems| == 1
  }

  /** Argument i as given, and with the memory it has after the first n statements. */
  function Standing(ws: seq<Write>, n: nat, ptrs: Pointers, given: Arg, i: nat): Arg
    requires n <= |ws| && i in ptrs && IsPointee(given)
  {
    Elems([Turned(given.mems[0], Flipped(ws, n, ptrs, ptrs[i]))])
  }

  /** Every statement that writes behind a pointer finds there what `args` says. */
  predicate InTurn(ws: seq<Write>, n: nat, ptrs: Pointers, given: seq<Arg>, args: seq<Arg>)
    requires n <= |ws|
  {
    n == 0 ||
    (InTurn(ws, n - 1, ptrs, given, args) &&
     var w := ws[n - 1];
     (Pointed(w, ptrs) ==>
        w.u.Single? && w.count == Times(1) && w.i < |given| && w.i < |args| && IsPointee(given[w.i]) &&
        args[w.i] == Standing(ws, n - 1, ptrs, given[w.i], w.i)))
  }

  lemma {:induction false} InTurnAt(ws: seq<Write>, n: nat, j: nat, ptrs: Pointers, given: seq<Arg>, args: seq<Arg>)
    requires j < n <= |ws| && InTurn(ws, n, ptrs, given, args)
    ensures var w := ws[j];
      Pointed(w, ptrs) ==>
        w.u.Single? && w.count == Times(1) && w.i < |given| && w.i < |args| && IsPointee(given[w.i]) &&
        args[w.i] == Standing(ws, j, ptrs, given[w.i], w.i)
  {
    if j < n - 1 {
      InTurnAt(ws, n - 1, j, ptrs, given, args);
    }
  }

  /** The arguments agree with those given, except that pointees may have been reversed. */
  predicate Agree(given: seq<Arg>, args: seq<Arg>, ptrs: Pointers) {
    && |given| == |args|
    && (forall i :: i in ptrs ==> i < |given| && IsPointee(given[i]) && IsPointee(args[i]))
    && forall i :: 0 <= i < |given| && i !in ptrs ==> given[i] == args[i]
  }
}
