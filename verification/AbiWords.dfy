/** One 32-octet word: what the emitted C writes for an element of each C type, and what the
    Contract ABI Specification asks for. */
module AbiWords {
  import opened Bytes
  import opened AbiSpec

  /** Element types; n is the size in octets. */
  datatype Elem = Address | Bool | UInt(n: nat) | SInt(n: nat) | BytesN(n: nat)

  /** How an element is used: as an argument of its own, in T[k], or in T[]. */
  datatype Use = Single | InFixed | InDynamic

  predicate Supported(e: Elem) {
    match e
    case Address => true
    case Bool => true
    case UInt(n) => n in {1, 2, 4, 8, 16, 32}
    case SInt(n) => n in {1, 2, 4, 8, 16, 32}
    case BytesN(n) => 1 <= n <= 32
  }

  /** sizeof the mapped C type. */
  function SizeOf(e: Elem): (n: nat)
    ensures Supported(e) ==> 1 <= n <= WORD
  {
    match e
    case Address => 20
    case Bool => 1
    case UInt(n) => n
    case SInt(n) => n
    case BytesN(n) => n
  }

  /** C integer types; the others map to octet arrays. */
  predicate IsNative(e: Elem) {
    e.Bool? || ((e.UInt? || e.SInt?) && SizeOf(e) <= 8)
  }

  /** The number an element stands for; integers and addresses are held little-endian. */
  function Meaning(e: Elem, mem: seq<byte>): int
    requires |mem| == SizeOf(e)
  {
    var u := FromLittleEndian(mem);
    if e.SInt? && Negative(e, mem) then u - Pow256(SizeOf(e)) else u
  }

  /** The sign bit of a signed element. */
  predicate Negative(e: Elem, mem: seq<byte>)
    requires |mem| == SizeOf(e)
  {
    mem != [] && mem[|mem| - 1] >= 0x80
  }

  function TwosComplement(w: nat, v: int): (s: seq<byte>)
    requires v + Pow256(w) >= 0
    ensures |s| == w
  {
    BigEndian(w, if v < 0 then v + Pow256(w) else v)
  }

  /** The word of the specification: numbers big-endian in two's complement, octet strings
      padded on the right. */
  function SpecWord(e: Elem, mem: seq<byte>): (w: seq<byte>)
    requires Supported(e) && |mem| == SizeOf(e)
    ensures |w| == WORD
  {
    if e.BytesN? then mem + Zeros(WORD - |mem|)
    else
      var v := Meaning(e, mem);
      MeaningInRange(e, mem);
      TwosComplement(WORD, v)
  }

  lemma MeaningInRange(e: Elem, mem: seq<byte>)
    requires Supported(e) && |mem| == SizeOf(e)
    ensures Meaning(e, mem) + Pow256(WORD) >= 0
  {
    Pow256Mono(SizeOf(e), WORD);
  }

  lemma {:induction false} Pow256Mono(m: nat, n: nat)
    requires m <= n
    ensures Pow256(m) <= Pow256(n)
    decreases n
  {
    if m < n {
      Pow256Mono(m, n - 1);
    }
  }

  // The generator's choices

  /** require_endian_change: the table names the array types T[] of one-octet elements too. */
  predicate Reversed(u: Use, e: Elem) {
    match e
    case Address => true
    case Bool => u == InDynamic
    case UInt(n) => n > 1 || u == InDynamic
    case SInt(n) => n > 1 || u == InDynamic
    case BytesN(_) => false
  }

  predicate RightAligned(e: Elem) {
    !e.BytesN?
  }

  /** Whether the emitted code tests the sign. is_signed_value_type does not know the T[k]
      types, and for int128 and int256, which are arrays in C, the emitted `>= 0` compares a
      pointer and never sees a negative number. */
  predicate SignTested(u: Use, e: Elem) {
    e.SInt? && u != InFixed && IsNative(e)
  }

  /** memset and memcpy (after the reversal in place) of one element. */
  function EmittedWord(u: Use, e: Elem, mem: seq<byte>): (w: seq<byte>)
    requires Supported(e) && |mem| == SizeOf(e)
    ensures |w| == WORD
  {
    var value := if Reversed(u, e) then Reverse(mem) else mem;
    var fill := Fill(WORD - |mem|, if SignTested(u, e) && Negative(e, mem) then 0xFF else 0);
    if RightAligned(e) then fill + value else value + fill
  }

  /** The elements the emitted code gets wrong: negative numbers it does not sign-extend. */
  predicate SignLost(u: Use, e: Elem, mem: seq<byte>)
    requires |mem| == SizeOf(e)
  {
    e.SInt? && SizeOf(e) < WORD && Negative(e, mem) && (u == InFixed || SizeOf(e) == 16)
  }

  lemma ReverseOne(mem: seq<byte>)
    requires |mem| == 1
    ensures Reverse(mem) == mem
  {
  }

  /** A number whose low octets are r. */
  lemma LowOctets(m: nat, r: seq<byte>, high: nat, v: nat)
    requires v == high * Pow256(|r|) + FromBigEndian(r)
    ensures BigEndian(m + |r|, v) == BigEndian(m, high) + r
  {
    FromBigEndianBound(r);
    ToFromBigEndian(r);
    BigEndianSplit(m, |r|, high, FromBigEndian(r));
  }

  /** Two's complement in w octets of a number that is negative in |mem| octets: its own
      octets under a run of ones. */
  lemma SignExtended(w: nat, mem: seq<byte>) returns (v: nat)
    requires |mem| <= w
    ensures v == FromLittleEndian(mem) - Pow256(|mem|) + Pow256(w)
    ensures BigEndian(w, v) == Fill(w - |mem|, 0xFF) + Reverse(mem)
  {
    var ones;
    v, ones := SignNumber(w, |mem|, FromLittleEndian(mem));
    LowOctets(w - |mem|, Reverse(mem), ones, v);
    BigEndianAllOnes(w - |mem|);
  }

  lemma SignNumber(w: nat, n: nat, u: nat) returns (v: nat, ones: nat)
    requires n <= w
    ensures ones == Pow256(w - n) - 1
    ensures v == u - Pow256(n) + Pow256(w) == ones * Pow256(n) + u
  {
    Pow256Add(w - n, n);
    Distribute(Pow256(w - n), Pow256(n), u);
    ones := Pow256(w - n) - 1;
    v := ones * Pow256(n) + u;
  }

  lemma Distribute(p: int, q: int, u: int)
    requires p >= 1 && q >= 1
    ensures u - q + p * q == (p - 1) * q + u && (p - 1) * q >= 0
  {
  }

  lemma PlainWord(e: Elem, mem: seq<byte>)
    requires Supported(e) && |mem| == SizeOf(e) && !e.BytesN? && !(e.SInt? && Negative(e, mem))
    ensures SpecWord(e, mem) == Zeros(WORD - |mem|) + Reverse(mem)
  {
    LowOctets(WORD - |mem|, Reverse(mem), 0, FromLittleEndian(mem));
    BigEndianZero(WORD - |mem|);
  }

  lemma NegativeWord(e: Elem, mem: seq<byte>)
    requires Supported(e) && |mem| == SizeOf(e) && e.SInt? && Negative(e, mem)
    ensures SpecWord(e, mem) == Fill(WORD - |mem|, 0xFF) + Reverse(mem)
  {
    NegativeMeaning(e, mem);
    MeaningInRange(e, mem);
    NegativeOctets(WORD, Meaning(e, mem), mem);
  }

  lemma NegativeOctets(w: nat, v: int, mem: seq<byte>)
    requires |mem| <= w && v == FromLittleEndian(mem) - Pow256(|mem|) < 0 <= v + Pow256(w)
    ensures TwosComplement(w, v) == Fill(w - |mem|, 0xFF) + Reverse(mem)
  {
    var n := SignExtended(w, mem);
    ComplementOf(w, v, n);
  }

  lemma ComplementOf(w: nat, v: int, n: nat)
    requires v < 0 && n == v + Pow256(w)
    ensures TwosComplement(w, v) == BigEndian(w, n)
  {
  }

  lemma NegativeMeaning(e: Elem, mem: seq<byte>)
    requires |mem| == SizeOf(e) && e.SInt? && Negative(e, mem)
    ensures Meaning(e, mem) == FromLittleEndian(mem) - Pow256(|mem|) < 0
  {
    FromBigEndianBound(Reverse(mem));
  }

  /** The emitted word is the specified one exactly when no sign is lost. */
  lemma WordCorrect(u: Use, e: Elem, mem: seq<byte>)
    requires Supported(e) && |mem| == SizeOf(e)
    ensures EmittedWord(u, e, mem) == SpecWord(e, mem) <==> !SignLost(u, e, mem)
  {
    if !e.BytesN? {
      if |mem| == 1 {
        ReverseOne(mem);
      }
      if e.SInt? && Negative(e, mem) {
        NegativeWord(e, mem);
        DifferentFill(WORD - |mem|, Reverse(mem));
      } else {
        PlainWord(e, mem);
      }
    }
  }

  /** Where the sign is lost, the word is that of the number without its sign: its octets under zeros. */
  lemma LostWord(u: Use, e: Elem, mem: seq<byte>)
    requires Supported(e) && |mem| == SizeOf(e) && SignLost(u, e, mem)
    ensures EmittedWord(u, e, mem) == Zeros(WORD - |mem|) + Reverse(mem)
  {
    if |mem| == 1 {
      ReverseOne(mem);
    }
  }

  lemma DifferentFill(n: nat, s: seq<byte>)
    ensures n > 0 ==> Fill(n, 0) + s != Fill(n, 0xFF) + s
    ensures n == 0 ==> Fill(n, 0) == Fill(n, 0xFF)
  {
    if n > 0 {
      assert (Fill(n, 0) + s)[0] == 0 && (Fill(n, 0xFF) + s)[0] == 0xFF;
    }
  }

  /** An int16[2] argument holding -1: the generator zero-extends it. */
  lemma SignLostExample()
    ensures EmittedWord(InFixed, SInt(2), [0xFF, 0xFF]) == Zeros(30) + [0xFF, 0xFF]
    ensures EmittedWord(InFixed, SInt(2), [0xFF, 0xFF]) != SpecWord(SInt(2), [0xFF, 0xFF])
  {
    WordCorrect(InFixed, SInt(2), [0xFF, 0xFF]);
    assert Reverse([0xFF, 0xFF]) == [0xFF, 0xFF];
  }
}
