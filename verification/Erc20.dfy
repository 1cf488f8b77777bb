/** The ERC-20 calls of the air-conditioning robot: how an address and an amount get into the
    call data, and how a balance gets out of the answer. */
module Erc20 {
  import opened Bytes
  import opened AbiSpec
  import opened AbiWords
  import opened AbiArgs
  import opened AbiMachine
  import opened AbiEncoder
  import AbiOutput
  import CMemory

  const ADDRESS_LEN: nat := 20

  /** value256: the four octets of the amount, lowest first, and zeros. */
  method AmountOctets(amount: nat) returns (value: array<byte>)
    requires amount < U32
    ensures fresh(value) && value[..] == LittleEndian(WORD, amount)
  {
    value := new byte[WORD](_ => 0);
    value[0] := amount % 256;
    value[1] := amount / 0x100 % 256;
    value[2] := amount / 0x1_0000 % 256;
    value[3] := amount / 0x100_0000 % 256;
    LowFour(amount);
    assert value[..] == value[..4] + value[4..];
    assert Reverse(Zeros(28) + BigEndian(4, amount)) == Reverse(BigEndian(4, amount)) + Zeros(28);
    assert value[..4] == [value[0], value[1], value[2], value[3]];
    ShortWord(amount);
  }

  lemma LowFour(v: nat)
    requires v < U32
    ensures v < Pow256(4)
    ensures Reverse(BigEndian(4, v)) ==
      [v % 256, v / 0x100 % 256, v / 0x1_0000 % 256, v / 0x100_0000 % 256]
  {
    var a := v / 256;
    var b := a / 256;
    var c := b / 256;
    BigEndianStep(4, v);
    BigEndianStep(3, a);
    BigEndianStep(2, b);
    BigEndianStep(1, c);
    assert BigEndian(0, c / 256) == [];
    assert BigEndian(4, v) == [c % 256, b % 256, a % 256, v % 256];
    assert b == v / 0x1_0000 && c == v / 0x100_0000;
  }

  /** call_erc20_transfer and erc20Transfer_transfer: the address is reversed twice, the amount
      once, both in place, and written through the moving cursor. */
  method TransferData(selector: seq<byte>, address: seq<byte>, amount: nat) returns (field: array<byte>)
    requires |selector| == 4 && |address| == ADDRESS_LEN && amount < U32
    ensures field[..] == selector + (Zeros(12) + address) + (Zeros(28) + BigEndian(4, amount))
  {
    var where := CMemory.Local(address);
    CMemory.ChangeEndian(where);
    var value := AmountOctets(amount);
    var out := new Cursor(2 * 32 + 4);
    out.Put(4, 0, 0, selector);
    CMemory.ChangeEndian(where);
    ReverseTwice(address);
    PutWord(out, where);
    CMemory.ChangeEndian(value);
    ReverseTwice(BigEndian(WORD, amount));
    PutWord(out, value);
    LowFour(amount);
    ShortWord(amount);
    field := out.buf;
    WholeBuffer(out, selector, address, BigEndian(WORD, amount));
  }

  lemma WholeBuffer(out: Cursor, selector: seq<byte>, address: seq<byte>, value: seq<byte>)
    requires out.Valid() && out.pos == out.buf.Length && |address| == ADDRESS_LEN && |value| == WORD
    requires out.Out() == [] + (Fill(0, 0) + selector + Fill(0, 0)) + (Zeros(12) + address) + (Zeros(0) + value)
    ensures out.buf[..] == selector + (Zeros(12) + address) + value
  {
    assert Fill(0, 0) == [] && Zeros(0) == [];
  }

  /** memset, memcpy to the end of the word, and the cursor moves on. */
  method PutWord(out: Cursor, a: array<byte>)
    requires out.Valid() && out.pos + WORD <= out.buf.Length && a.Length <= WORD && a != out.buf
    modifies out, out.buf
    ensures out.Valid() && out.pos == old(out.pos) + WORD
    ensures out.Out() == old(out.Out()) + (Zeros(WORD - a.Length) + a[..])
    ensures a[..] == old(a[..])
  {
    out.Put(WORD, 0, WORD - a.Length, a[..]);
    assert Fill(WORD - a.Length, 0) + old(a[..]) + Fill(0, 0) == Zeros(WORD - a.Length) + old(a[..]);
  }

  /** The same octets are what the generator's output gives for transfer(address,uint256). */
  lemma TransferIsGenerated(address: seq<byte>, amount: nat)
    requires |address| == ADDRESS_LEN && amount < U32
    ensures var ts := [Scalar(Address), Scalar(UInt(32))];
      var args := [Elems([Reverse(address)]), Elems([LittleEndian(WORD, amount)])];
      AllFit(ts, args) && CallData(ts, args) == (Zeros(12) + address) + (Zeros(28) + BigEndian(4, amount))
  {
    var a, v := Reverse(address), LittleEndian(WORD, amount);
    var ts := [Scalar(Address), Scalar(UInt(32))];
    var args := [Elems([a]), Elems([v])];
    ReverseTwice(address);
    ReverseTwice(BigEndian(WORD, amount));
    LowFour(amount);
    ShortWord(amount);
    var w1, w2 := EmittedWord(Single, Address, a), EmittedWord(Single, UInt(32), v);
    assert w1 == Zeros(12) + address;
    assert w2 == Zeros(0) + BigEndian(WORD, amount) == BigEndian(WORD, amount);
    TwoScalars(Address, a, UInt(32), v);
  }

  /** allowance called with the same pointer for owner and spender: the second word holds the
      address with its octets the other way round, and the caller's memory is as it was. */
  lemma SelfAllowance(a: array<byte>, mem: seq<byte>)
    requires |mem| == ADDRESS_LEN
    ensures var ts, given := [Scalar(Address), Scalar(Address)], [Elems([mem]), Elems([mem])];
      var ptrs := map[0 := a, 1 := a];
      && AllFit(ts, given) && Passed(ts, ptrs)
      && Seen(ts, given, ptrs) == [Elems([mem]), Elems([Reverse(mem)])]
      && Left(ts, given, ptrs) == given
      && AllFit(ts, Seen(ts, given, ptrs))
      && CallData(ts, Seen(ts, given, ptrs)) == (Zeros(12) + Reverse(mem)) + (Zeros(12) + mem)
  {
    var ts, given := [Scalar(Address), Scalar(Address)], [Elems([mem]), Elems([mem])];
    var ptrs := map[0 := a, 1 := a];
    SingleFits(Address, mem);
    SingleFits(Address, Reverse(mem));
    ReverseTwice(mem);
    assert !FlippedBy(ts, 0, ptrs, a) && FlippedBy(ts, 1, ptrs, a) && !FlippedBy(ts, 2, ptrs, a);
    var seen := Seen(ts, given, ptrs);
    assert seen == [Elems([mem]), Elems([Reverse(mem)])];
    TwoScalars(Address, mem, Address, Reverse(mem));
  }

  /** The call data of two value arguments. */
  lemma TwoScalars(d: Elem, m: seq<byte>, e: Elem, n: seq<byte>)
    requires Supported(d) && |m| == SizeOf(d) && Supported(e) && |n| == SizeOf(e)
    ensures var ts, args := [Scalar(d), Scalar(e)], [Elems([m]), Elems([n])];
      AllFit(ts, args) && CallData(ts, args) == EmittedWord(Single, d, m) + EmittedWord(Single, e, n)
  {
    var ts, args := [Scalar(d), Scalar(e)], [Elems([m]), Elems([n])];
    SingleFits(d, m);
    SingleFits(e, n);
    var ps := ArgParts(ts, args);
    ArgPartAt(ts, args, 0);
    ArgPartAt(ts, args, 1);
    assert ps == [Part(false, EmittedWord(Single, d, m)), Part(false, EmittedWord(Single, e, n))];
    TwoWords(EmittedWord(Single, d, m), EmittedWord(Single, e, n));
  }

  lemma SingleFits(e: Elem, mem: seq<byte>)
    requires Supported(e) && |mem| == SizeOf(e)
    ensures Fits(Scalar(e), Elems([mem]))
    ensures Enc(TyOf(Scalar(e)), ValOf(Scalar(e), Elems([mem]), false)) == EmittedWord(Single, e, mem)
  {
    assert [mem][1..] == [];
  }

  lemma TwoWords(a: seq<byte>, b: seq<byte>)
    ensures Assemble([Part(false, a), Part(false, b)]) == a + b
  {
    var p, q := Part(false, a), Part(false, b);
    var h := HeadsLen([p, q]);
    assert [p, q] == [p] + [q] && [q] == [q] + [];
    AbiOutput.HeadsCons([p, q], h, p, [q]);
    AbiOutput.HeadsCons([q], h, q, []);
    assert b + [] == b;
  }

  /** The end of call_erc20_balanceOf: the word is reversed in place and its first four octets
      are the memory of the result on a little-endian host. */
  method DecodeBalance(word: array<byte>) returns (balance: nat)
    requires word.Length == WORD
    modifies word
    ensures balance == FromBigEndian(old(word[..])) % U32
  {
    ghost var w := word[..];
    CMemory.ChangeEndian(word);
    var image := [word[0], word[1], word[2], word[3]];
    balance := FromLittleEndian(image);
    assert Reverse(image) == w[28..];
    LowWord(w);
  }

  lemma LowWord(w: seq<byte>)
    requires |w| == WORD
    ensures FromBigEndian(w) % U32 == FromBigEndian(w[28..])
  {
    FromBigEndianSplit(w[..28], w[28..]);
    assert w == w[..28] + w[28..];
    FromBigEndianBound(w[28..]);
    assert Pow256(4) == U32;
    ModAdd(FromBigEndian(w[..28]), FromBigEndian(w[28..]));
  }

  lemma ModAdd(high: nat, low: nat)
    requires low < U32
    ensures (high * U32 + low) % U32 == low
  {
  }

  lemma {:induction false} FromBigEndianSplit(a: seq<byte>, b: seq<byte>)
    ensures FromBigEndian(a + b) == FromBigEndian(a) * Pow256(|b|) + FromBigEndian(b)
  {
    if b == [] {
      assert a + b == a;
    } else {
      var front := b[..|b| - 1];
      assert (a + b)[..|a + b| - 1] == a + front;
      FromBigEndianSplit(a, front);
      Shift(FromBigEndian(a), Pow256(|front|), FromBigEndian(front));
    }
  }

  lemma Shift(x: nat, p: nat, y: nat)
    ensures (x * p + y) * 256 == x * (256 * p) + y * 256
  {
  }

  /** What is encoded as an amount is decoded as the same balance. */
  lemma AmountRoundTrip(amount: nat)
    requires amount < U32
    ensures FromBigEndian(Zeros(28) + BigEndian(4, amount)) % U32 == amount
  {
    LowFour(amount);
    LowWord(Zeros(28) + BigEndian(4, amount));
    assert (Zeros(28) + BigEndian(4, amount))[28..] == BigEndian(4, amount);
    FromToBigEndian(4, amount);
  }
}
