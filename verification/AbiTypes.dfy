/** The generator works on the names of Solidity types. Its predicates on names tell the argument
    types apart, and the length of a fixed array can be read from its name. */
module AbiTypes {
  import opened AbiWords
  import opened AbiArgs

  function Digit(d: nat): char
    requires d < 10
  {
    '0' + d as char
  }

  predicate IsDigit(c: char) {
    '0' <= c <= '9'
  }

  predicate AllDigits(s: string) {
    forall i :: 0 <= i < |s| ==> IsDigit(s[i])
  }

  function Decimal(n: nat): (s: string)
    ensures s != [] && AllDigits(s)
  {
    if n < 10 then [Digit(n)] else Decimal(n / 10) + [Digit(n % 10)]
  }

  /** int(s) */
  function Parse(s: string): nat
    requires AllDigits(s)
  {
    if s == [] then 0 else Parse(s[..|s| - 1]) * 10 + (s[|s| - 1] - '0') as nat
  }

  lemma {:induction false} ParseDecimal(n: nat)
    ensures Parse(Decimal(n)) == n
  {
    var s := Decimal(n);
    if n < 10 {
      assert s[..0] == [];
    } else {
      ParseDecimal(n / 10);
      assert s[..|s| - 1] == Decimal(n / 10);
    }
  }

  function ElemName(e: Elem): string
    requires Supported(e)
  {
    match e
    case Address => "address"
    case Bool => "bool"
    case UInt(n) => "uint" + Decimal(n * 8)
    case SInt(n) => "int" + Decimal(n * 8)
    case BytesN(n) => "bytes" + Decimal(n)
  }

  predicate Nameable(t: ArgTy) {
    HasElem(t) ==> Supported(t.e)
  }

  /** The name up to an opening bracket. */
  function BaseName(t: ArgTy): string
    requires Nameable(t)
  {
    if HasElem(t) then ElemName(t.e) else if t.text then "string" else "bytes"
  }

  function Suffix(t: ArgTy): string {
    match t
    case Scalar(_) => ""
    case Bytes(_) => ""
    case DynArray(_) => "[]"
    case BytesArray(_) => "[]"
    case FixedArray(_, k) => "[" + Decimal(k) + "]"
    case BytesFixedArray(_, k) => "[" + Decimal(k) + "]"
  }

  function Name(t: ArgTy): string
    requires Nameable(t)
  {
    BaseName(t) + Suffix(t)
  }

  // The predicates on names

  predicate OccursAt(sub: string, s: string, p: nat) {
    p + |sub| <= |s| && forall i :: 0 <= i < |sub| ==> s[p + i] == sub[i]
  }

  /** s.find(sub) != -1 */
  predicate Occurs(sub: string, s: string) {
    exists p: nat :: p <= |s| && OccursAt(sub, s, p)
  }

  predicate NonFixedSizeNonFixedArray(s: string) {
    s == "bytes[]" || s == "string[]"
  }

  predicate NonFixedSizeFixedArray(s: string) {
    (Occurs("bytes[", s) && s != "bytes[]") || (Occurs("string[", s) && s != "string[]")
  }

  predicate NonFixedSize(s: string) {
    s == "string" || s == "bytes"
  }

  predicate FixedSizeNonFixedArray(s: string) {
    Occurs("[]", s) && s != "string[]" && s != "bytes[]"
  }

  predicate FixedSizeFixedArray(s: string) {
    Occurs("[", s) && !Occurs("[]", s) && !Occurs("string", s) && !Occurs("bytes[", s)
  }

  /** s.find(c) for a character that occurs. */
  function Find(s: string, c: char): (p: nat)
    requires c in s
    ensures p < |s| && s[p] == c && forall i :: 0 <= i < p ==> s[i] != c
  {
    if s[0] == c then 0 else 1 + Find(s[1..], c)
  }

  /** get_FixedArray_length */
  function FixedArrayLength(s: string): nat
    requires '[' in s && ']' in s && Find(s, '[') < Find(s, ']')
    requires AllDigits(s[Find(s, '[') + 1..Find(s, ']')])
  {
    Parse(s[Find(s, '[') + 1..Find(s, ']')])
  }

  // What they say about the types

  predicate Without(s: string, c: char) {
    forall i :: 0 <= i < |s| ==> s[i] != c
  }

  lemma NoBracket(t: ArgTy)
    requires Nameable(t)
    ensures Without(BaseName(t), '[') && Without(BaseName(t), ']')
    ensures HasElem(t) ==> Without(BaseName(t), 'g')
  {
    if HasElem(t) {
      match t.e
      case Address =>
      case Bool =>
      case UInt(n) => Concat("uint", Decimal(n * 8));
      case SInt(n) => Concat("int", Decimal(n * 8));
      case BytesN(n) => Concat("bytes", Decimal(n));
    }
  }

  lemma Concat(a: string, digits: string)
    requires AllDigits(digits) && Without(a, '[') && Without(a, ']') && Without(a, 'g')
    ensures Without(a + digits, '[') && Without(a + digits, ']') && Without(a + digits, 'g')
  {
  }

  /** Ends with these five characters. */
  predicate EndsWith(s: string, sub: string) {
    |sub| <= |s| && OccursAt(sub, s, |s| - |sub|)
  }

  /** The last character of an element type's name is none that could precede the bracket of a
      byte string array. */
  lemma ElemEnd(e: Elem)
    requires Supported(e)
    ensures ElemName(e) != "bytes" && ElemName(e) != "string"
    ensures !EndsWith(ElemName(e), "bytes") && !EndsWith(ElemName(e), "string")
  {
    var s := ElemName(e);
    assert s[|s| - 1] == 's' ==> e.Address?;
    assert "bytes"[4] == 's' && "bytes"[2] == 't' && "string"[5] == 'g';
  }

  lemma OnlyBracket(base: string, rest: string, p: nat)
    requires Without(base, '[') && rest != [] && rest[0] == '[' && Without(rest[1..], '[') && p < |base + rest|
    ensures (base + rest)[p] == '[' <==> p == |base|
  {
    if p < |base| {
      assert (base + rest)[p] == base[p];
    } else if p > |base| {
      assert (base + rest)[p] == rest[1..][p - |base| - 1];
    }
  }

  /** A pattern that ends with the bracket occurs only where the bracket is. */
  lemma BeforeBracket(base: string, rest: string, sub: string)
    requires Without(base, '[') && rest != [] && rest[0] == '[' && Without(rest[1..], '[')
    ensures Occurs(sub + "[", base + rest) <==> EndsWith(base, sub)
  {
    var s, pattern := base + rest, sub + "[";
    forall p: nat | OccursAt(pattern, s, p) ensures EndsWith(base, sub) {
      assert s[p + |sub|] == pattern[|sub|] == '[';
      OnlyBracket(base, rest, p + |sub|);
      forall i | 0 <= i < |sub| ensures base[p + i] == sub[i] {
        assert s[p + i] == pattern[i];
      }
    }
    if EndsWith(base, sub) {
      var p := |base| - |sub|;
      forall i | 0 <= i < |pattern| ensures s[p + i] == pattern[i] {
        if i < |sub| {
          assert base[p + i] == sub[i];
        }
      }
      assert OccursAt(pattern, s, p);
    }
  }

  lemma SuffixShape(t: ArgTy)
    ensures Suffix(t) != [] ==> Suffix(t)[0] == '[' && Without(Suffix(t)[1..], '[') && Without(Suffix(t), 'g')
    ensures Suffix(t) == [] <==> t.Scalar? || t.Bytes?
    ensures Suffix(t) == "[]" <==> t.DynArray? || t.BytesArray?
    ensures Suffix(t) != [] && Suffix(t) != "[]" ==> IsDigit(Suffix(t)[1])
  {
    if t.FixedArray? || t.BytesFixedArray? {
      var d := Decimal(t.k);
      assert Suffix(t)[1..] == d + "]";
      assert Suffix(t)[1] == d[0];
    }
  }

  lemma NoOccurrence(s: string, sub: string, i: nat)
    requires i < |sub| && Without(s, sub[i])
    ensures !Occurs(sub, s)
  {
    forall p: nat ensures !OccursAt(sub, s, p) {
      if p + |sub| <= |s| {
        assert s[p + i] != sub[i];
      }
    }
  }

  /** Where "[]" occurs, it is the whole suffix. */
  lemma EmptyBrackets(t: ArgTy)
    requires Nameable(t)
    ensures Occurs("[]", Name(t)) <==> Suffix(t) == "[]"
    ensures Occurs("[", Name(t)) <==> Suffix(t) != []
  {
    var base, rest, s := BaseName(t), Suffix(t), Name(t);
    NoBracket(t);
    SuffixShape(t);
    if rest == [] {
      assert s == base;
      NoOccurrence(s, "[]", 0);
      NoOccurrence(s, "[", 0);
    } else {
      assert OccursAt("[", s, |base|);
      if rest == "[]" {
        assert OccursAt("[]", s, |base|);
      } else {
        NotEmpty(base, rest);
      }
    }
  }

  lemma NotEmpty(base: string, rest: string)
    requires Without(base, '[') && |rest| >= 2 && rest[0] == '[' && Without(rest[1..], '[') && IsDigit(rest[1])
    ensures !Occurs("[]", base + rest)
  {
    var s := base + rest;
    forall p: nat ensures !OccursAt("[]", s, p) {
      if p + 2 <= |s| {
        OnlyBracket(base, rest, p);
        assert "[]"[0] == '[' && "[]"[1] == ']';
        assert s[|base| + 1] == rest[1];
        assert !(s[p + 0] == '[' && s[p + 1] == ']');
      }
    }
  }

  /** Two names with a bracket are equal only if base and suffix are. */
  lemma NameCut(a: string, x: string, b: string, y: string)
    requires Without(a, '[') && Without(b, '[') && a + x == b + y
    requires (x == [] || x[0] == '[') && (y == [] || y[0] == '[')
    ensures a == b && x == y
  {
    var s := a + x;
    assert forall i :: 0 <= i < |a| ==> s[i] == a[i] && s[i] != '[';
    assert s == b + y;
    assert forall i :: 0 <= i < |b| ==> s[i] == b[i] && s[i] != '[';
    assert x != [] ==> s[|a|] == '[';
    assert y != [] ==> s[|b|] == '[';
    assert |a| == |b|;
    assert s[..|a|] == a && s[..|b|] == b && s[|a|..] == x && s[|b|..] == y;
  }

  /** The classification used by all passes of the generator: each name falls into the class of
      its argument type and into no other. */
  lemma Classified(t: ArgTy)
    requires Nameable(t)
    ensures NonFixedSizeNonFixedArray(Name(t)) <==> t.BytesArray?
    ensures NonFixedSizeFixedArray(Name(t)) <==> t.BytesFixedArray?
    ensures NonFixedSize(Name(t)) <==> t.Bytes?
    ensures FixedSizeNonFixedArray(Name(t)) <==> t.DynArray?
    ensures FixedSizeFixedArray(Name(t)) <==> t.FixedArray?
  {
    NoBracket(t);
    SuffixShape(t);
    EmptyBrackets(t);
    Equalities(t);
    if Suffix(t) == [] {
      assert Name(t) == BaseName(t);
      NoOccurrence(Name(t), "bytes[", 5);
      NoOccurrence(Name(t), "string[", 6);
    } else {
      ByteStrings(t);
    }
  }

  lemma Equalities(t: ArgTy)
    requires Nameable(t)
    ensures Name(t) == "bytes[]" <==> BaseName(t) == "bytes" && Suffix(t) == "[]"
    ensures Name(t) == "string[]" <==> BaseName(t) == "string" && Suffix(t) == "[]"
    ensures Name(t) == "bytes" <==> BaseName(t) == "bytes" && Suffix(t) == ""
    ensures Name(t) == "string" <==> BaseName(t) == "string" && Suffix(t) == ""
    ensures BaseName(t) == "bytes" || BaseName(t) == "string" <==> !HasElem(t)
  {
    NoBracket(t);
    SuffixShape(t);
    if HasElem(t) {
      ElemEnd(t.e);
    }
    assert "bytes[]" == "bytes" + "[]" && "string[]" == "string" + "[]";
    assert "bytes" == "bytes" + "" && "string" == "string" + "";
    if Name(t) == "bytes[]" { NameCut(BaseName(t), Suffix(t), "bytes", "[]"); }
    if Name(t) == "string[]" { NameCut(BaseName(t), Suffix(t), "string", "[]"); }
    if Name(t) == "bytes" { NameCut(BaseName(t), Suffix(t), "bytes", ""); }
    if Name(t) == "string" { NameCut(BaseName(t), Suffix(t), "string", ""); }
  }

  /** Whether an array's base is a byte string type shows before the bracket. */
  lemma ByteStrings(t: ArgTy)
    requires Nameable(t) && Suffix(t) != []
    ensures Occurs("bytes[", Name(t)) <==> BaseName(t) == "bytes"
    ensures Occurs("string[", Name(t)) <==> BaseName(t) == "string"
    ensures Occurs("string", Name(t)) || Occurs("bytes[", Name(t)) <==> !HasElem(t)
  {
    var base, rest := BaseName(t), Suffix(t);
    NoBracket(t);
    SuffixShape(t);
    assert "bytes[" == "bytes" + "[" && "string[" == "string" + "[";
    BeforeBracket(base, rest, "bytes");
    BeforeBracket(base, rest, "string");
    if HasElem(t) {
      ElemEnd(t.e);
      NoOccurrence(Name(t), "string", 5);
    } else if t.text {
      assert OccursAt("string", Name(t), 0);
      assert EndsWith(base, "string");
      assert base[5] != "bytes"[4];
    } else {
      assert EndsWith(base, "bytes");
    }
  }

  /** The length of T[k] is read back from its name. */
  lemma LengthRead(t: ArgTy)
    requires Nameable(t) && (t.FixedArray? || t.BytesFixedArray?)
    ensures var s := Name(t);
      && '[' in s && ']' in s && Find(s, '[') < Find(s, ']')
      && AllDigits(s[Find(s, '[') + 1..Find(s, ']')])
      && FixedArrayLength(s) == t.k
  {
    NoBracket(t);
    LengthBehind(BaseName(t), t.k, Name(t));
  }

  lemma LengthBehind(base: string, k: nat, s: string)
    requires Without(base, '[') && Without(base, ']') && s == base + ("[" + Decimal(k) + "]")
    ensures '[' in s && ']' in s && Find(s, '[') < Find(s, ']')
    ensures AllDigits(s[Find(s, '[') + 1..Find(s, ']')]) && FixedArrayLength(s) == k
  {
    BracketedLength(base, Decimal(k));
    ParseDecimal(k);
  }

  lemma BracketedLength(base: string, d: string)
    requires Without(base, '[') && Without(base, ']') && AllDigits(d)
    ensures var s := base + ("[" + d + "]");
      && '[' in s && ']' in s && Find(s, '[') == |base| && Find(s, ']') == |base| + 1 + |d|
      && s[|base| + 1..|base| + 1 + |d|] == d
  {
    var rest := "[" + d + "]";
    var s := base + rest;
    assert s[|base|] == rest[0] == '[' && s[|base| + 1 + |d|] == rest[1 + |d|] == ']';
    forall i | 0 <= i < |base| + 1 + |d| ensures s[i] != ']' && (i < |base| ==> s[i] != '[') {
      if i < |base| {
        assert s[i] == base[i];
      } else {
        assert s[i] == rest[i - |base|];
      }
    }
    assert s[|base| + 1..|base| + 1 + |d|] == d;
  }
}
