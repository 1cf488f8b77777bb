/** The layout shared by the keypair file and the network file: a four-octet count header
    followed by packed self-delimiting entries. An entry is `pre` fixed octets, a length
    field and that many octets of payload. */
module RecordChain {
  import opened Bytes
  import opened Tlv
  import opened Nvram

  const HEADER_LEN: nat := 4
  // BOAT_MAX_KEYPAIR_NUM and BOAT_MAX_NETWORK_NUM
  const MAX_RECORDS: nat := 5

  /** AA 55 num crc; HeaderCrc says what the last octet is. */
  function Header(n: byte): (h: seq<byte>)
    ensures |h| == HEADER_LEN
  {
    [0xAA, 0x55, n, 0xFF - n]
  }

  /** The count in a header, or -1 if the check fails. */
  function CheckHeader(h: seq<byte>): (n: int)
    requires |h| == HEADER_LEN
    ensures n >= 0 ==> n < 256 && h == Header(n)
    ensures n < 0 ==> forall k: byte :: h != Header(k)
  {
    if h == Header(h[2]) then h[2] else -1
  }

  /** The bitwise exclusive or. */
  function Xor(a: nat, b: nat): nat
    decreases a + b
  {
    if a + b == 0 then 0 else 2 * Xor(a / 2, b / 2) + (if a % 2 == b % 2 then 0 else 1)
  }

  /** The number of k ones in binary. */
  function Ones(k: nat): nat {
    if k == 0 then 0 else 2 * Ones(k - 1) + 1
  }

  /** A header is accepted exactly if it starts with AA 55 and its last octet is the exclusive or
      of the other three. */
  lemma HeaderCrc(h: seq<byte>)
    requires |h| == HEADER_LEN
    ensures CheckHeader(h) >= 0 <==> h[0] == 0xAA && h[1] == 0x55 && h[3] == Xor(Xor(h[0], h[1]), h[2])
    ensures CheckHeader(h) >= 0 ==> CheckHeader(h) == h[2]
  {
    if h[0] == 0xAA && h[1] == 0x55 {
      XorComplement(h[0], h[1], h[2]);
    }
    assert h == [h[0], h[1], h[2], h[3]];
  }

  lemma XorComplement(a: nat, b: nat, n: byte)
    requires a == 0xAA && b == 0x55
    ensures Xor(Xor(a, b), n) == 0xFF - n
  {
    Alternating(a, b);
    assert Ones(8) == 0xFF;
    Complement(8, n);
  }

  lemma Alternating(a: nat, b: nat)
    requires a == 0xAA && b == 0x55
    ensures Xor(a, b) == 0xFF
  {
    assert Xor(2, 1) == 3;
    assert Xor(10, 5) == 15;
    assert Xor(42, 21) == 63;
  }

  lemma {:induction false} Complement(k: nat, n: nat)
    requires n <= Ones(k)
    ensures Xor(Ones(k), n) == Ones(k) - n
  {
    if k > 0 {
      Complement(k - 1, n / 2);
      XorStep(Ones(k - 1), n / 2, 1, n % 2);
    }
  }

  lemma XorStep(a: nat, b: nat, c: nat, d: nat)
    requires c < 2 && d < 2
    ensures Xor(2 * a + c, 2 * b + d) == 2 * Xor(a, b) + (if c == d then 0 else 1)
  {
    var x, y := 2 * a + c, 2 * b + d;
    assert x / 2 == a && x % 2 == c && y / 2 == b && y % 2 == d;
  }

  predicate IsEntry(pre: nat, e: seq<byte>) {
    && pre + 3 <= |e|
    && var l := DecodeLength(e[pre..pre + 3]);
      l >= 0 && |e| == pre + LengthWidth(l) + l
  }

  function Pack(es: seq<seq<byte>>): seq<byte> {
    if es == [] then [] else es[0] + Pack(es[1..])
  }

  /** Where entry i starts. */
  function Offset(es: seq<seq<byte>>, i: nat): nat
    requires i <= |es|
  {
    HEADER_LEN + |Pack(es[..i])|
  }

  /** The entries `es` lie packed behind the header, whatever the header says. */
  ghost predicate Packed(m: seq<byte>, pre: nat, es: seq<seq<byte>>) {
    HEADER_LEN <= |m| && AllEntries(pre, es) && Pack(es) <= m[HEADER_LEN..]
  }

  predicate AllEntries(pre: nat, es: seq<seq<byte>>) {
    forall i :: 0 <= i < |es| ==> IsEntry(pre, es[i])
  }

  /** The region `m` holds exactly the entries `es`. */
  ghost predicate Holds(m: seq<byte>, pre: nat, es: seq<seq<byte>>) {
    && |es| <= MAX_RECORDS
    && (if Blank(m) then es == [] else Packed(m, pre, es) && m[..HEADER_LEN] == Header(|es|))
  }

  /** No valid header: the code treats such a region as holding no record. */
  ghost predicate Blank(m: seq<byte>) {
    |m| < HEADER_LEN || CheckHeader(m[..HEADER_LEN]) < 0
  }

  lemma {:induction false} PackConcat(a: seq<seq<byte>>, b: seq<seq<byte>>)
    ensures Pack(a + b) == Pack(a) + Pack(b)
  {
    if a == [] {
      assert a + b == b;
    } else {
      PackConcat(a[1..], b);
      assert (a + b)[1..] == a[1..] + b && (a + b)[0] == a[0];
      ConcatAssoc(a[0], Pack(a[1..]), Pack(b));
    }
  }

  lemma PackOne(e: seq<byte>)
    ensures Pack([e]) == e
  {
    assert [e][1..] == [];
  }

  /** Entry i lies in the packed form between the entries before it and those after it. */
  lemma PackAround(es: seq<seq<byte>>, i: nat)
    requires i < |es|
    ensures Pack(es) == Pack(es[..i]) + es[i] + Pack(es[i + 1..])
    ensures Offset(es, i + 1) == Offset(es, i) + |es[i]|
    ensures Offset(es, |es|) == Offset(es, i + 1) + |Pack(es[i + 1..])|
  {
    PackConcat(es[..i], [es[i]]);
    PackOne(es[i]);
    assert es[..i + 1] == es[..i] + [es[i]];
    PackConcat(es[..i + 1], es[i + 1..]);
    assert es == es[..i + 1] + es[i + 1..];
    assert es[..|es|] == es;
  }

  /** Entry i is found in the region at its offset, with its length field decodable. */
  lemma EntryAt(m: seq<byte>, pre: nat, es: seq<seq<byte>>, i: nat)
    requires Packed(m, pre, es) && i < |es|
    ensures Offset(es, i + 1) == Offset(es, i) + |es[i]| <= Offset(es, |es|) <= |m|
    ensures m[Offset(es, i)..Offset(es, i + 1)] == es[i]
    ensures IsEntry(pre, es[i])
    ensures m[Offset(es, i) + pre..Offset(es, i) + pre + 3] == es[i][pre..pre + 3]
  {
    PackAround(es, i);
    assert es[i] in es;
    assert es[..|es|] == es;
    var o := Offset(es, i);
    Located(m, HEADER_LEN, Pack(es[..i]), es[i], Pack(es[i + 1..]));
    SliceOfSlice(m, o, |es[i]|, pre, pre + 3);
  }

  /** Writing an entry behind the last one and then raising the count appends it. */
  lemma Appended(m: seq<byte>, pre: nat, es: seq<seq<byte>>, e: seq<byte>)
    requires Holds(m, pre, es) && |es| < MAX_RECORDS && IsEntry(pre, e)
    requires Offset(es, |es|) + |e| <= |m|
    ensures Holds(Overwrite(m, Offset(es, |es|), e), pre, es)
    ensures Holds(Overwrite(Overwrite(m, Offset(es, |es|), e), 0, Header(|es| + 1)), pre, es + [e])
  {
    var o := Offset(es, |es|);
    assert es[..|es|] == es;
    var m1 := Overwrite(m, o, e);
    assert m1[..HEADER_LEN] == m[..HEADER_LEN] by {
      assert m1[..HEADER_LEN] == m1[..o][..HEADER_LEN];
      assert m[..HEADER_LEN] == m[..o][..HEADER_LEN];
    }
    assert m1[HEADER_LEN..o] == m[HEADER_LEN..o] by {
      assert m1[HEADER_LEN..o] == m1[..o][HEADER_LEN..];
      assert m[HEADER_LEN..o] == m[..o][HEADER_LEN..];
    }
    assert Blank(m) ==> Pack(es) == [];
    assert m[HEADER_LEN..o] == Pack(es);
    PackConcat(es, [e]);
    PackOne(e);
    var m2 := Overwrite(m1, 0, Header(|es| + 1));
    assert m2[..HEADER_LEN] == Header(|es| + 1);
    assert m2[HEADER_LEN..] == m1[HEADER_LEN..];
    assert m1[HEADER_LEN..o + |e|] == m1[HEADER_LEN..o] + m1[o..o + |e|];
    assert Pack(es + [e]) == m2[HEADER_LEN..o + |e|];
    assert CheckHeader(m2[..HEADER_LEN]) >= 0;
  }

  /** Rewriting the header of a region that holds records with a smaller count keeps a prefix. */
  lemma Truncated(m: seq<byte>, pre: nat, es: seq<seq<byte>>, n: nat)
    requires Holds(m, pre, es) && es != [] && n <= |es|
    ensures HEADER_LEN <= |m| && Holds(Overwrite(m, 0, Header(n)), pre, es[..n])
  {
    PackConcat(es[..n], es[n..]);
    assert es == es[..n] + es[n..];
    var m1 := Overwrite(m, 0, Header(n));
    assert m1[..HEADER_LEN] == Header(n);
    assert m1[HEADER_LEN..] == m[HEADER_LEN..];
    assert CheckHeader(m1[..HEADER_LEN]) >= 0;
  }

  function Without<T>(s: seq<T>, i: nat): (r: seq<T>)
    requires i < |s|
    ensures |r| == |s| - 1
  {
    s[..i] + s[i + 1..]
  }

  predicate AllDone(ops: seq<bool>) {
    ops == [] || (ops[0] && AllDone(ops[1..]))
  }

  lemma {:induction false} AllDoneIff(ops: seq<bool>)
    ensures AllDone(ops) <==> forall k :: 0 <= k < |ops| ==> ops[k]
  {
    if ops != [] {
      AllDoneIff(ops[1..]);
      assert forall k :: 0 < k < |ops| ==> ops[k] == ops[1..][k - 1];
    }
  }

  /** The outcomes from operation `start` on, in terms of the log. */
  lemma AllDoneFrom(log: seq<bool>, start: nat)
    requires start <= |log|
    ensures AllDone(log[start..]) <==> forall k :: start <= k < |log| ==> log[k]
  {
    AllDoneIff(log[start..]);
    assert forall k :: start <= k < |log| ==> log[k] == log[start..][k - start];
  }

  /** One of the n operations from `start` on was performed and failed. */
  predicate FailedWithin(log: seq<bool>, start: nat, n: nat) {
    exists k :: start <= k < |log| && k < start + n && !log[k]
  }

  /** The operations from `start` on end with the first that failed. */
  predicate StopsAt(log: seq<bool>, start: nat) {
    start < |log| && !log[|log| - 1] && forall k :: start <= k < |log| - 1 ==> log[k]
  }

  /** Two stretches of operations, of which the first all went through. */
  lemma StopsLater(log: seq<bool>, start: nat, mid: nat)
    requires start <= mid <= |log| && (forall k :: start <= k < mid ==> log[k]) && StopsAt(log, mid)
    ensures StopsAt(log, start)
  {
  }

  /** What is left of a list when item i is deleted, if the operations from the lowering of the
      count on ended as in `ops`: the first one lowers the count, and an attempt that fails
      behind it leaves the list whole only if the last operation, the recovery, went through. */
  function AfterRemoval<T>(s: seq<T>, i: nat, ops: seq<bool>): seq<T>
    requires i < |s|
  {
    if ops == [] || !ops[0] then s
    else if AllDone(ops) then Without(s, i)
    else if ops[|ops| - 1] then s
    else s[..|s| - 1]
  }

  lemma RemovalDone<T>(s: seq<T>, i: nat, log: seq<bool>, start: nat)
    requires i < |s| && start < |log| && forall k :: start <= k < |log| ==> log[k]
    ensures AfterRemoval(s, i, log[start..]) == Without(s, i)
  {
    AllDoneFrom(log, start);
  }

  lemma RemovalFailed<T>(s: seq<T>, i: nat, log: seq<bool>, start: nat, bad: nat)
    requires i < |s| && start <= bad < |log| && !log[bad]
    ensures AfterRemoval(s, i, log[start..]) == if !log[start] || log[|log| - 1] then s else s[..|s| - 1]
  {
    AllDoneFrom(log, start);
  }

  /** The outcomes from operation n on. */
  function OpsFrom(log: seq<bool>, n: nat): seq<bool> {
    if n < |log| then log[n..] else []
  }

  /** Place j of the shortened list, and where a place of the list goes. */
  lemma WithoutPlace<T>(s: seq<T>, i: nat, j: nat)
    requires i < |s|
    ensures j < |s| - 1 ==> Without(s, i)[j] == s[if j < i then j else j + 1]
    ensures j < |s| && j != i ==> s[j] == Without(s, i)[if j < i then j else j - 1]
  {
  }

  lemma WithoutAt<T>(s: seq<T>, i: nat)
    requires i < |s|
    ensures forall j :: 0 <= j < |s| - 1 ==> Without(s, i)[j] == s[if j < i then j else j + 1]
  {
  }

  /** Rewriting the header moves no entry, and writing the old count back undoes it all. */
  lemma HeaderOnly(m: seq<byte>, pre: nat, es: seq<seq<byte>>, n: byte)
    requires Holds(m, pre, es) && es != []
    ensures HEADER_LEN <= |m|
    ensures var m1 := Overwrite(m, 0, Header(n));
      Packed(m1, pre, es) && Overwrite(m1, 0, Header(|es|)) == m
      && m1[HEADER_LEN..] == m[HEADER_LEN..]
  {
    var m1 := Overwrite(m, 0, Header(n));
    assert m1[HEADER_LEN..] == m[HEADER_LEN..];
    assert m == Header(|es|) + m[HEADER_LEN..];
  }

  /** With the count already lowered, copying everything behind entry i down over it
      removes exactly that entry. */
  lemma Compacted(m: seq<byte>, pre: nat, es: seq<seq<byte>>, i: nat)
    requires Holds(m, pre, es) && i < |es|
    ensures HEADER_LEN <= |m| && Offset(es, i) <= Offset(es, i + 1) <= Offset(es, |es|) <= |m|
    ensures var tail := m[Offset(es, i + 1)..Offset(es, |es|)];
      Holds(Overwrite(Overwrite(m, 0, Header(|es| - 1)), Offset(es, i), tail), pre, Without(es, i))
  {
    Decompose(m, pre, es, i);
    var a, t, junk := Pack(es[..i]), Pack(es[i + 1..]), m[Offset(es, |es|)..];
    OverwriteBehind(m[..HEADER_LEN] + a, es[i], t, junk, Header(|es| - 1));
    assert (m[..HEADER_LEN] + a)[HEADER_LEN..] == a;
    EntriesWithoutOne(pre, es, i);
    var m2 := Overwrite(Overwrite(m, 0, Header(|es| - 1)), Offset(es, i), t);
    var rest := (es[i] + t + junk)[|t|..];
    ConcatAssoc(Header(|es| - 1), a, t);
    assert m2 == Header(|es| - 1) + Pack(Without(es, i)) + rest;
    Rebuilt(m2, pre, Without(es, i), rest);
  }

  lemma EntriesWithoutOne(pre: nat, es: seq<seq<byte>>, i: nat)
    requires AllEntries(pre, es) && i < |es|
    ensures AllEntries(pre, Without(es, i)) && Pack(Without(es, i)) == Pack(es[..i]) + Pack(es[i + 1..])
  {
    PackConcat(es[..i], es[i + 1..]);
    WithoutAt(es, i);
  }

  /** A header and the packed entries are enough. */
  lemma Rebuilt(m: seq<byte>, pre: nat, es: seq<seq<byte>>, rest: seq<byte>)
    requires AllEntries(pre, es) && |es| <= MAX_RECORDS && m == Header(|es|) + Pack(es) + rest
    ensures Holds(m, pre, es)
  {
    Reheaded(m, Header(|es|), Pack(es), rest);
    assert CheckHeader(m[..HEADER_LEN]) >= 0;
  }

  lemma Reheaded(m: seq<byte>, h: seq<byte>, packed: seq<byte>, rest: seq<byte>)
    requires |h| == HEADER_LEN && m == h + packed + rest
    ensures m[..HEADER_LEN] == h && packed <= m[HEADER_LEN..]
  {
    assert m == h + (packed + rest);
  }

  /** The region around entry i. */
  lemma Decompose(m: seq<byte>, pre: nat, es: seq<seq<byte>>, i: nat)
    requires Packed(m, pre, es) && i < |es|
    ensures Offset(es, i) <= Offset(es, i + 1) <= Offset(es, |es|) <= |m|
    ensures m[Offset(es, i + 1)..Offset(es, |es|)] == Pack(es[i + 1..])
    ensures Offset(es, i) == |m[..HEADER_LEN] + Pack(es[..i])|
    ensures m == m[..HEADER_LEN] + Pack(es[..i]) + (es[i] + Pack(es[i + 1..]) + m[Offset(es, |es|)..])
  {
    PackAround(es, i);
    Pieces(m, HEADER_LEN, Pack(es[..i]), es[i], Pack(es[i + 1..]), Offset(es, |es|));
  }

  /** A new header, then t written over what stands behind `a`. */
  lemma OverwriteBehind(a: seq<byte>, e: seq<byte>, t: seq<byte>, junk: seq<byte>, h: seq<byte>)
    requires |h| == HEADER_LEN <= |a|
    ensures var m := a + (e + t + junk);
      Overwrite(Overwrite(m, 0, h), |a|, t) == h + a[HEADER_LEN..] + t + (e + t + junk)[|t|..]
  {
    var rest := e + t + junk;
    var m1 := Overwrite(a + rest, 0, h);
    assert m1 == (h + a[HEADER_LEN..]) + rest;
    assert m1[..|a|] == h + a[HEADER_LEN..];
    assert m1[|a| + |t|..] == rest[|t|..];
  }

  /** With the count already lowered, nothing written into the slot of the last entry is seen. */
  lemma Tombstoned(m: seq<byte>, pre: nat, es: seq<seq<byte>>, junk: seq<byte>)
    requires Holds(m, pre, es) && es != [] && |junk| <= |es[|es| - 1]|
    ensures HEADER_LEN <= |m| && Offset(es, |es| - 1) + |junk| <= |m|
    ensures Holds(Overwrite(Overwrite(m, 0, Header(|es| - 1)), Offset(es, |es| - 1), junk), pre, es[..|es| - 1])
    ensures |es[|es| - 1]| >= pre + 3
  {
    var n := |es| - 1;
    EntryAt(m, pre, es, n);
    Truncated(m, pre, es, n);
    var m1 := Overwrite(m, 0, Header(n));
    var o := Offset(es, n);
    var m2 := Overwrite(m1, o, junk);
    assert m2[..HEADER_LEN] == m2[..o][..HEADER_LEN] == m1[..o][..HEADER_LEN] == m1[..HEADER_LEN];
    assert m2[HEADER_LEN..o] == m2[..o][HEADER_LEN..] == m1[..o][HEADER_LEN..] == m1[HEADER_LEN..o];
    assert m1[HEADER_LEN..o] == Pack(es[..n]);
  }

  /** The octets determine the entries: no region holds two different lists. */
  lemma HoldsUnique(m: seq<byte>, pre: nat, es: seq<seq<byte>>, fs: seq<seq<byte>>)
    requires Holds(m, pre, es) && Holds(m, pre, fs)
    ensures es == fs
  {
    if !Blank(m) {
      assert Header(|es|)[2] == Header(|fs|)[2];
      PackUnique(pre, es, fs, m[HEADER_LEN..]);
    }
  }

  /** No entry is a proper prefix of another. */
  lemma SelfDelimiting(pre: nat, a: seq<byte>, b: seq<byte>)
    requires IsEntry(pre, a) && IsEntry(pre, b) && a <= b
    ensures a == b
  {
    assert b[pre..pre + 3] == b[..|a|][pre..pre + 3] == a[pre..pre + 3];
  }

  lemma {:induction false} PackUnique(pre: nat, es: seq<seq<byte>>, fs: seq<seq<byte>>, m: seq<byte>)
    requires |es| == |fs| && Pack(es) <= m && Pack(fs) <= m
    requires AllEntries(pre, es + fs)
    ensures es == fs
  {
    if es != [] {
      assert es[0] in es + fs && fs[0] in es + fs;
      assert es[0] == m[..|es[0]|] && fs[0] == m[..|fs[0]|];
      assert es[0][pre..pre + 3] == m[pre..pre + 3] == fs[0][pre..pre + 3];
      assert Pack(es[1..]) == Pack(es)[|es[0]|..] <= m[|es[0]|..];
      assert Pack(fs[1..]) == Pack(fs)[|es[0]|..] <= m[|es[0]|..];
      forall e | e in es[1..] + fs[1..] ensures IsEntry(pre, e) {
        assert e in es + fs;
      }
      PackUnique(pre, es[1..], fs[1..], m[|es[0]|..]);
    }
  }

  /** Reads and checks the count header; num is -1 when the check fails. */
  method ReadHeader(dev: Device, ghost pre: nat, ghost es: seq<seq<byte>>) returns (code: int, num: int)
    requires Holds(dev.mem[..], pre, es)
    modifies dev`log
    ensures dev.log == old(dev.log) + [code == SUCCESS] && code <= SUCCESS
    ensures code == SUCCESS ==> if Blank(dev.mem[..]) then num == -1 else num == |es|
  {
    num := -1;
    var h;
    code, h := dev.Read(0, HEADER_LEN);
    if code == SUCCESS {
      num := CheckHeader(h);
      assert h == dev.mem[..][..HEADER_LEN];
      assert num >= 0 ==> Header(num)[2] == Header(|es|)[2];
    }
  }

  /** One step of a walk: from the start of entry i, reads its length field; next is the
      start of the entry behind it. */
  method SkipEntry(dev: Device, pre: nat, offset: nat, ghost es: seq<seq<byte>>, ghost i: nat)
    returns (code: int, next: nat)
    requires Packed(dev.mem[..], pre, es) && i < |es| && offset == Offset(es, i)
    modifies dev`log
    ensures dev.log == old(dev.log) + [code == SUCCESS] && code <= SUCCESS
    ensures code == SUCCESS ==> next == Offset(es, i + 1)
  {
    next := offset;
    var lengthBytes;
    code, lengthBytes := dev.Read(offset + pre, 3);
    if code == SUCCESS {
      EntryAt(dev.mem[..], pre, es, i);
      assert lengthBytes == dev.mem[..][offset + pre..offset + pre + 3];
      var len := DecodeLength(lengthBytes);
      next := offset + pre + LengthWidth(len) + len;
    }
  }

  /** The compaction of a deletion, with the count already lowered: measures the entries
      behind entry i, whose successor starts at `from`, and copies them down to `to`.
      Allocation or any device operation may fail, and then nothing has changed; `reached`
      tells whether the final write was attempted. */
  method MoveTail(dev: Device, pre: nat, from: nat, to: nat, i: nat, num: nat, ghost es: seq<seq<byte>>)
    returns (code: int, reached: bool)
    requires Packed(dev.mem[..], pre, es) && i < num == |es|
    requires from == Offset(es, i + 1) && to == Offset(es, i)
    modifies dev`log, dev.mem
    ensures old(dev.log) <= dev.log && code <= SUCCESS
    ensures code == SUCCESS ==> reached
    ensures |dev.log| <= |old(dev.log)| + (num + 2 - i)
    ensures code == SUCCESS ==> |dev.log| == |old(dev.log)| + (num + 2 - i)
    ensures code == SUCCESS <==> dev.CleanSince(|old(dev.log)|)
    ensures code != SUCCESS ==> StopsAt(dev.log, |old(dev.log)|)
    ensures code != SUCCESS ==> (reached <==> |dev.log| == |old(dev.log)| + (num + 2 - i))
    ensures to <= from <= Offset(es, num) <= dev.mem.Length
    ensures code == SUCCESS ==> dev.mem[..] == Overwrite(old(dev.mem[..]), to, old(dev.mem[..])[from..Offset(es, num)])
    ensures code != SUCCESS ==> dev.mem[..] == old(dev.mem[..])
  {
    Decompose(dev.mem[..], pre, es, i);
    var data;
    reached := false;
    code, data := FetchTail(dev, pre, from, i, num, es);
    if code != SUCCESS {
      return;
    }
    reached := true;
    ghost var before := |dev.log|;
    code := dev.Write(to, data);
    assert dev.CleanSince(|old(dev.log)|) <==> dev.log[before];
    if code != SUCCESS {
      code := ERROR_FILE_WRITE_FAIL;
    }
  }

  /** The tail, measured and then read into allocated memory. */
  method FetchTail(dev: Device, pre: nat, from: nat, i: nat, num: nat, ghost es: seq<seq<byte>>)
    returns (code: int, data: seq<byte>)
    requires Packed(dev.mem[..], pre, es) && i < num == |es| && from == Offset(es, i + 1)
    modifies dev`log
    ensures old(dev.log) <= dev.log && code <= SUCCESS
    ensures |dev.log| <= |old(dev.log)| + (num + 1 - i)
    ensures code == SUCCESS ==> |dev.log| == |old(dev.log)| + (num + 1 - i)
    ensures code == SUCCESS <==> dev.CleanSince(|old(dev.log)|)
    ensures code != SUCCESS ==> StopsAt(dev.log, |old(dev.log)|)
    ensures code == SUCCESS ==> from <= Offset(es, num) <= dev.mem.Length && data == dev.mem[from..Offset(es, num)]
  {
    var tailLen;
    data := [];
    code, tailLen := MeasureTail(dev, pre, from, i, num, es);
    if code != SUCCESS {
      return;
    }
    var ok := dev.Allocate();
    if !ok {
      assert !dev.log[|dev.log| - 1];
      return ERROR_OUT_OF_MEMORY, [];
    }
    code, data := dev.Read(from, tailLen);
    if code != SUCCESS {
      assert !dev.log[|dev.log| - 1];
      code := ERROR_FILE_READ_FAIL;
    }
  }

  /** The total length of the entries behind entry i. */
  method MeasureTail(dev: Device, pre: nat, from: nat, i: nat, num: nat, ghost es: seq<seq<byte>>)
    returns (code: int, tailLen: nat)
    requires Packed(dev.mem[..], pre, es) && i < num == |es| && from == Offset(es, i + 1)
    modifies dev`log
    ensures old(dev.log) <= dev.log && code <= SUCCESS
    ensures |dev.log| <= |old(dev.log)| + (num - 1 - i)
    ensures code == SUCCESS ==> |dev.log| == |old(dev.log)| + (num - 1 - i)
    ensures code == SUCCESS <==> dev.CleanSince(|old(dev.log)|)
    ensures code != SUCCESS ==> StopsAt(dev.log, |old(dev.log)|)
    ensures code == SUCCESS ==> from + tailLen == Offset(es, num)
  {
    var offset, j := from, i + 1;
    code, tailLen := SUCCESS, 0;
    while j < num
      invariant i + 1 <= j <= num && offset == Offset(es, j) == from + tailLen && code == SUCCESS
      invariant |dev.log| == |old(dev.log)| + (j - 1 - i)
      invariant old(dev.log) <= dev.log && dev.CleanSince(|old(dev.log)|)
    {
      PackAround(es, j);
      var next;
      code, next := SkipEntry(dev, pre, offset, es, j);
      if code != SUCCESS {
        assert !dev.log[|dev.log| - 1];
        return;
      }
      tailLen := tailLen + (next - offset);
      offset, j := next, j + 1;
    }
  }

  // The start of a store, in terms of its operations, which are those behind the first `start`. The
  // first one reads the header; if that fails, or for a one-time file, the file is taken for empty.

  predicate HeaderRead(log: seq<bool>, start: nat) {
    start < |log| && log[start]
  }

  /** How many of n records a store keeps. */
  function Base(n: nat, onetime: bool, log: seq<bool>, start: nat): nat {
    if !onetime && HeaderRead(log, start) then n else 0
  }

  /** The number of records a store starts from. A header that cannot be read or checked
      counts as an empty file, and the one-time file always starts afresh, unless the header
      shows a full file. */
  method StartCount(dev: Device, onetime: bool, ghost pre: nat, ghost es: seq<seq<byte>>)
    returns (code: int, num: nat)
    requires Holds(dev.mem[..], pre, es)
    modifies dev`log
    ensures dev.log == old(dev.log) + [code == SUCCESS] && code <= SUCCESS
    ensures num == if code != SUCCESS || (onetime && |es| < MAX_RECORDS) then 0 else |es|
  {
    var n;
    code, n := ReadHeader(dev, pre, es);
    num := if code != SUCCESS || n < 0 then 0 else n;
    if num < MAX_RECORDS && onetime {
      num := 0;
    }
  }

  /** The walk of a store: to the start of entry `num`. */
  method FindEnd(dev: Device, pre: nat, num: nat, ghost es: seq<seq<byte>>) returns (code: int, offset: nat)
    requires Holds(dev.mem[..], pre, es) && num <= |es|
    modifies dev`log
    ensures old(dev.log) <= dev.log && code <= SUCCESS
    ensures |dev.log| <= |old(dev.log)| + num
    ensures code == SUCCESS ==> |dev.log| == |old(dev.log)| + num
    ensures code != SUCCESS ==> |old(dev.log)| < |dev.log| && !dev.log[|dev.log| - 1]
    ensures code == SUCCESS <==> dev.CleanSince(|old(dev.log)|)
    ensures code == SUCCESS ==> offset == Offset(es, num)
  {
    code, offset := SUCCESS, HEADER_LEN;
    assert Offset(es, 0) == HEADER_LEN;
    for i := 0 to num
      invariant code == SUCCESS && offset == Offset(es, i) && |dev.log| == |old(dev.log)| + i
      invariant old(dev.log) <= dev.log && dev.CleanSince(|old(dev.log)|)
    {
      code, offset := SkipEntry(dev, pre, offset, es, i);
      if code != SUCCESS {
        assert !dev.log[|dev.log| - 1];
        return;
      }
    }
  }

  /** Writing one entry where the first one belongs and a count of 1 holds just that entry. */
  lemma Restarted(m: seq<byte>, pre: nat, e: seq<byte>)
    requires IsEntry(pre, e) && HEADER_LEN + |e| <= |m|
    ensures Holds(Overwrite(Overwrite(m, HEADER_LEN, e), 0, Header(1)), pre, [e])
  {
    var m1 := Overwrite(m, HEADER_LEN, e);
    var m2 := Overwrite(m1, 0, Header(1));
    PackOne(e);
    assert m2[HEADER_LEN..] == m1[HEADER_LEN..];
    assert m1[HEADER_LEN..HEADER_LEN + |e|] == e;
    assert m2[..HEADER_LEN] == Header(1);
    assert CheckHeader(m2[..HEADER_LEN]) >= 0;
  }

  /** The two writes of a store, each with what the region then holds. */
  lemma Committed(m: seq<byte>, pre: nat, num: nat, e: seq<byte>, es: seq<seq<byte>>)
    requires IsEntry(pre, e) && Holds(m, pre, es)
    requires num < MAX_RECORDS && (num == 0 || num == |es|)
    requires Offset(es, num) + |e| <= |m|
    ensures var m1 := Overwrite(m, Offset(es, num), e);
      && Holds(Overwrite(m1, 0, Header(num + 1)), pre, es[..num] + [e])
      && (num == |es| ==> Holds(m1, pre, es))
  {
    var m1 := Overwrite(m, Offset(es, num), e);
    if num == |es| {
      Appended(m, pre, es, e);
      assert es[..num] == es;
    } else {
      assert Offset(es, 0) == HEADER_LEN;
      Restarted(m, pre, e);
      assert es[..0] + [e] == [e];
    }
  }

  // A store that takes the file for empty and fails

  /** The region m is m0 with `written` at `offset`. */
  ghost predicate Wrote(m0: seq<byte>, offset: nat, written: seq<byte>, m: seq<byte>) {
    if written == [] then m == m0
    else offset + |written| <= |m0| && m == Overwrite(m0, offset, written)
  }

  /** Where the first entry was, something else has been written. The entries are all still there
      exactly if it is what was there. */
  lemma FirstKept(m: seq<byte>, pre: nat, es: seq<seq<byte>>, w: seq<byte>, m1: seq<byte>)
    requires Holds(m, pre, es) && es != [] && Wrote(m, HEADER_LEN, w, m1)
    requires |w| <= |es[0]| || IsEntry(pre, w)
    ensures Holds(m1, pre, es) <==> w <= es[0]
  {
    if w <= es[0] {
      Same(m, pre, es, w, m1);
    }
    if Holds(m1, pre, es) && w != [] {
      StartsWith(m, pre, es, w, m1, es);
    }
  }

  lemma Same(m: seq<byte>, pre: nat, es: seq<seq<byte>>, w: seq<byte>, m1: seq<byte>)
    requires Packed(m, pre, es) && es != [] && Wrote(m, HEADER_LEN, w, m1) && w <= es[0]
    ensures m1 == m
  {
    FirstAt(m, pre, es);
    if w != [] {
      assert m[HEADER_LEN..HEADER_LEN + |w|] == m[HEADER_LEN..HEADER_LEN + |es[0]|][..|w|];
      assert m == m[..HEADER_LEN] + m[HEADER_LEN..HEADER_LEN + |w|] + m[HEADER_LEN + |w|..];
    }
  }

  lemma FirstAt(m: seq<byte>, pre: nat, es: seq<seq<byte>>)
    requires Packed(m, pre, es) && es != []
    ensures HEADER_LEN + |es[0]| <= |m| && m[HEADER_LEN..HEADER_LEN + |es[0]|] == es[0] && IsEntry(pre, es[0])
  {
    EntryAt(m, pre, es, 0);
    assert Offset(es, 0) == HEADER_LEN;
  }

  /** Whatever list such a file holds, it has as many entries, and the first one agrees with what
      was written. */
  lemma StartsWith(m: seq<byte>, pre: nat, es: seq<seq<byte>>, w: seq<byte>, m1: seq<byte>, fs: seq<seq<byte>>)
    requires Holds(m, pre, es) && es != [] && Wrote(m, HEADER_LEN, w, m1) && w != [] && Holds(m1, pre, fs)
    ensures |fs| == |es|
    ensures |w| <= |fs[0]| ==> w <= fs[0]
    ensures IsEntry(pre, w) ==> fs[0] == w
  {
    assert m1[..HEADER_LEN] == m[..HEADER_LEN];
    assert Header(|fs|)[2] == Header(|es|)[2];
    FirstAt(m1, pre, fs);
    FirstOctets(m1, w, fs[0]);
    if IsEntry(pre, w) {
      assert w[pre..pre + 3] == m1[HEADER_LEN..][pre..pre + 3] == fs[0][pre..pre + 3];
    }
  }

  lemma FirstOctets(m: seq<byte>, a: seq<byte>, b: seq<byte>)
    requires HEADER_LEN + |a| <= |m| && HEADER_LEN + |b| <= |m|
    requires m[HEADER_LEN..HEADER_LEN + |a|] == a && m[HEADER_LEN..HEADER_LEN + |b|] == b
    ensures a <= m[HEADER_LEN..] && b <= m[HEADER_LEN..]
    ensures |a| <= |b| ==> a <= b
  {
    assert m[HEADER_LEN..][..|a|] == a && m[HEADER_LEN..][..|b|] == b;
    if |a| <= |b| {
      assert b[..|a|] == m[HEADER_LEN..][..|b|][..|a|];
    }
  }

  /** If the first entry is rewritten to one of the same length, the others stay. */
  lemma FirstRewritten(m: seq<byte>, pre: nat, es: seq<seq<byte>>, w: seq<byte>, e: seq<byte>, m1: seq<byte>)
    requires Holds(m, pre, es) && es != [] && Wrote(m, HEADER_LEN, w, m1)
    requires IsEntry(pre, e) && |w| <= |es[0]| && e == w + es[0][|w|..]
    ensures Holds(m1, pre, [e] + es[1..])
  {
    Decompose(m, pre, es, 0);
    var t, junk := Pack(es[1..]), m[Offset(es, |es|)..];
    Regroup(m, es[0], t, junk);
    RewriteHead(m, Header(|es|), es[0], t + junk, w, m1);
    EntriesRewritten(pre, es, e);
    ConcatThree(Header(|es|), e, t, junk, Pack([e] + es[1..]));
    Rebuilt(m1, pre, [e] + es[1..], junk);
  }

  lemma Regroup(m: seq<byte>, first: seq<byte>, t: seq<byte>, junk: seq<byte>)
    requires HEADER_LEN <= |m| && m == m[..HEADER_LEN] + [] + (first + t + junk)
    ensures m == m[..HEADER_LEN] + (first + (t + junk))
  {
    ConcatAssoc(first, t, junk);
  }

  lemma ConcatThree(h: seq<byte>, e: seq<byte>, t: seq<byte>, junk: seq<byte>, packed: seq<byte>)
    requires packed == e + t
    ensures h + (e + (t + junk)) == h + packed + junk
  {
  }

  lemma RewriteHead(m: seq<byte>, h: seq<byte>, first: seq<byte>, rest: seq<byte>, w: seq<byte>, m1: seq<byte>)
    requires |h| == HEADER_LEN && m == h + (first + rest) && |w| <= |first| && Wrote(m, HEADER_LEN, w, m1)
    ensures m1 == h + (w + first[|w|..] + rest)
  {
    if w != [] {
      assert m[..HEADER_LEN] == h;
      assert m[HEADER_LEN + |w|..] == first[|w|..] + rest;
    } else {
      assert w + first[|w|..] == first;
    }
  }

  lemma EntriesRewritten(pre: nat, es: seq<seq<byte>>, e: seq<byte>)
    requires AllEntries(pre, es) && es != [] && IsEntry(pre, e)
    ensures AllEntries(pre, [e] + es[1..]) && Pack([e] + es[1..]) == e + Pack(es[1..])
  {
    assert ([e] + es[1..])[1..] == es[1..];
  }

  /** A file of one entry holds whatever entry is written there. */
  lemma SingleRewritten(m: seq<byte>, pre: nat, es: seq<seq<byte>>, e: seq<byte>, m1: seq<byte>)
    requires Holds(m, pre, es) && |es| == 1 && IsEntry(pre, e) && Wrote(m, HEADER_LEN, e, m1)
    ensures Holds(m1, pre, [e])
  {
    PackOne(e);
    assert m1[..HEADER_LEN] == m[..HEADER_LEN] == Header(1);
    assert m1 == Header(1) + e + m[HEADER_LEN + |e|..];
    Rebuilt(m1, pre, [e], m[HEADER_LEN + |e|..]);
  }

  /** So does a file whose first entry is as long as what is written there. */
  lemma FirstReplaced(m: seq<byte>, pre: nat, es: seq<seq<byte>>, e: seq<byte>, m1: seq<byte>)
    requires Holds(m, pre, es) && es != [] && IsEntry(pre, e) && Wrote(m, HEADER_LEN, e, m1)
    requires |es| == 1 || |es[0]| == |e|
    ensures Holds(m1, pre, [e] + es[1..])
  {
    if |es| == 1 {
      SingleRewritten(m, pre, es, e, m1);
      assert [e] + es[1..] == [e];
    } else {
      assert e + es[0][|e|..] == e;
      FirstRewritten(m, pre, es, e, e, m1);
    }
  }

  /** Writes the entry, then the count. */
  method Commit(dev: Device, pre: nat, num: nat, offset: nat, e: seq<byte>, ghost es: seq<seq<byte>>)
    returns (code: int)
    requires IsEntry(pre, e) && Holds(dev.mem[..], pre, es)
    requires num < MAX_RECORDS && (num == 0 || num == |es|) && offset == Offset(es, num)
    modifies dev`log, dev.mem
    ensures old(dev.log) < dev.log && code <= SUCCESS
    ensures |dev.log| <= |old(dev.log)| + 2
    ensures code == SUCCESS ==> |dev.log| == |old(dev.log)| + 2
    ensures code != SUCCESS ==> !dev.log[|dev.log| - 1]
    ensures code == SUCCESS <==> dev.CleanSince(|old(dev.log)|)
    ensures code == SUCCESS ==> Holds(dev.mem[..], pre, es[..num] + [e])
    ensures code != SUCCESS && num == |es| ==> Holds(dev.mem[..], pre, es)
    ensures code != SUCCESS ==>
      Wrote(old(dev.mem[..]), offset, if |dev.log| == |old(dev.log)| + 1 then [] else e, dev.mem[..])
  {
    ghost var m := dev.mem[..];
    code := dev.Write(offset, e);
    if code != SUCCESS {
      assert !dev.log[|dev.log| - 1];
      return;
    }
    ghost var m1 := dev.mem[..];
    assert m1 == Overwrite(m, Offset(es, num), e);
    Committed(m, pre, num, e, es);
    code := dev.Write(0, Header(num + 1));
    if code != SUCCESS {
      assert !dev.log[|dev.log| - 1];
    }
  }

  lemma SliceOfTail(m: seq<byte>, m1: seq<byte>, from: nat, to: nat)
    requires HEADER_LEN <= from <= to <= |m| == |m1| && m[HEADER_LEN..] == m1[HEADER_LEN..]
    ensures m[from..to] == m1[from..to]
  {
    forall k | from <= k < to ensures m[k] == m1[k] {
      assert m[k] == m[HEADER_LEN..][k - HEADER_LEN] && m1[k] == m1[HEADER_LEN..][k - HEADER_LEN];
    }
  }

  /** Compacted, in terms of the region whose count has been lowered. */
  lemma CompactedInPlace(m: seq<byte>, m1: seq<byte>, pre: nat, es: seq<seq<byte>>, i: nat)
    requires Holds(m, pre, es) && i < |es| && HEADER_LEN <= |m| && m1 == Overwrite(m, 0, Header(|es| - 1))
    ensures Packed(m1, pre, es) && Offset(es, i + 1) == Offset(es, i) + |es[i]| <= Offset(es, |es|) <= |m1|
    ensures Holds(Overwrite(m1, Offset(es, i), m1[Offset(es, i + 1)..Offset(es, |es|)]), pre, Without(es, i))
  {
    HeaderOnly(m, pre, es, |es| - 1);
    Compacted(m, pre, es, i);
    PackAround(es, i);
    SliceOfTail(m, m1, Offset(es, i + 1), Offset(es, |es|));
  }

  /** Erase of an entry that is not the last. */
  method Compact(dev: Device, pre: nat, num: nat, i: nat, offset: nat, len: nat, ghost m: seq<byte>, ghost es: seq<seq<byte>>)
    returns (code: int, reached: bool)
    requires Holds(m, pre, es) && i < num == |es| && HEADER_LEN <= |m|
    requires dev.mem[..] == Overwrite(m, 0, Header(num - 1))
    requires offset == Offset(es, i) && len == |es[i]|
    modifies dev`log, dev.mem
    ensures old(dev.log) <= dev.log && code <= SUCCESS
    ensures |dev.log| <= |old(dev.log)| + (num + 2 - i)
    ensures code == SUCCESS ==> |dev.log| == |old(dev.log)| + (num + 2 - i)
    ensures code == SUCCESS <==> dev.CleanSince(|old(dev.log)|)
    ensures code != SUCCESS ==> StopsAt(dev.log, |old(dev.log)|)
    ensures code != SUCCESS ==> (reached <==> |dev.log| == |old(dev.log)| + (num + 2 - i))
    ensures code == SUCCESS ==> Holds(dev.mem[..], pre, Without(es, i))
    ensures code != SUCCESS ==> dev.mem[..] == old(dev.mem[..])
  {
    CompactedInPlace(m, dev.mem[..], pre, es, i);
    code, reached := MoveTail(dev, pre, offset + len, offset, i, num, es);
  }

  /** Operations of a removal proper that goes through. */
  function EraseOps(num: nat, i: nat): nat
    requires i < num
  {
    if i == num - 1 then 1 else num + 2 - i
  }

  /** The removal proper, with the count already lowered: three zero octets over the last
      entry, a compaction otherwise. Failing, it changes nothing. */
  method Erase(dev: Device, pre: nat, num: nat, i: nat, offset: nat, len: nat, ghost m: seq<byte>, ghost es: seq<seq<byte>>)
    returns (code: int)
    requires Holds(m, pre, es) && i < num == |es| && HEADER_LEN <= |m|
    requires dev.mem[..] == Overwrite(m, 0, Header(num - 1))
    requires offset == Offset(es, i) && len == |es[i]|
    modifies dev`log, dev.mem
    ensures old(dev.log) <= dev.log && code <= SUCCESS
    ensures |dev.log| <= |old(dev.log)| + EraseOps(num, i)
    ensures code == SUCCESS ==> |dev.log| == |old(dev.log)| + EraseOps(num, i)
    ensures code == SUCCESS <==> dev.CleanSince(|old(dev.log)|)
    ensures code != SUCCESS ==> StopsAt(dev.log, |old(dev.log)|)
    ensures code == SUCCESS ==> Holds(dev.mem[..], pre, Without(es, i))
    ensures code != SUCCESS ==> dev.mem[..] == old(dev.mem[..])
  {
    if i == num - 1 {
      EntryAt(m, pre, es, i);
      Tombstoned(m, pre, es, [0, 0, 0]);
      assert Without(es, i) == es[..i];
      code := dev.Write(offset, [0, 0, 0]);
      if code != SUCCESS {
        assert !dev.log[|dev.log| - 1];
      }
    } else {
      var reached;
      code, reached := Compact(dev, pre, num, i, offset, len, m, es);
    }
  }

  /** The region with its count lowered holds all entries but the last, and writing the old
      count back restores everything. */
  lemma Lowered(m: seq<byte>, pre: nat, es: seq<seq<byte>>)
    requires Holds(m, pre, es) && es != []
    ensures HEADER_LEN <= |m|
    ensures var m1 := Overwrite(m, 0, Header(|es| - 1));
      Holds(m1, pre, es[..|es| - 1]) && Overwrite(m1, 0, Header(|es|)) == m
  {
    Truncated(m, pre, es, |es| - 1);
    HeaderOnly(m, pre, es, |es| - 1);
  }

  /** The least index from i on that is not in use. */
  function LeastFree(used: set<int>, i: nat): (r: nat)
    requires 1 <= i <= MAX_RECORDS
    ensures i <= r <= MAX_RECORDS + 1
    ensures r !in used || r == MAX_RECORDS + 1
    ensures forall j :: i <= j < r ==> j in used
    decreases MAX_RECORDS - i
  {
    if i !in used then i else if i == MAX_RECORDS then i + 1 else LeastFree(used, i + 1)
  }

  /** What a search for the least unused index finds. */
  lemma LeastIs(used: set<int>, r: int)
    requires 1 <= r <= MAX_RECORDS && r !in used && forall i :: 1 <= i < r ==> i in used
    ensures LeastFree(used, 1) == r
  {
  }

  /** A set of numbers that all stand in a list is no larger than the list. */
  lemma {:induction false} SetBound(used: set<int>, s: seq<int>)
    requires forall i :: i in used ==> i in s
    ensures |used| <= |s|
  {
    if s == [] {
      assert forall i :: i !in used;
      assert used == {};
    } else {
      SetBound(used - {s[0]}, s[1..]);
    }
  }

  /** Fewer than MAX_RECORDS numbers leave one of 1 to MAX_RECORDS unused. */
  lemma SomeFree(used: set<int>) returns (free: int)
    requires |used| < MAX_RECORDS
    ensures 1 <= free <= MAX_RECORDS && free !in used
  {
    free := if 1 !in used then 1 else if 2 !in used then 2 else if 3 !in used then 3 else if 4 !in used then 4 else 5;
    var all: set<int> := {1, 2, 3, 4, 5};
    assert all <= used ==> used == all + (used - all) && |all| == 5;
  }

  /** What is written behind the last entry is not seen. */
  lemma WrittenBehind(m: seq<byte>, pre: nat, es: seq<seq<byte>>, o: nat, data: seq<byte>)
    requires Holds(m, pre, es) && Offset(es, |es|) <= o && o + |data| <= |m|
    ensures Holds(Overwrite(m, o, data), pre, es)
  {
    var m1 := Overwrite(m, o, data);
    var end := Offset(es, |es|);
    assert es[..|es|] == es;
    forall k | 0 <= k < o ensures m1[k] == m[k] {
      assert m1[k] == m1[..o][k] && m[k] == m[..o][k];
    }
    assert m1[..HEADER_LEN] == m[..HEADER_LEN];
    if !Blank(m) {
      assert m[HEADER_LEN..end] == m1[HEADER_LEN..end];
      assert Pack(es) == m[HEADER_LEN..][..|Pack(es)|] == m[HEADER_LEN..end];
      assert m1[HEADER_LEN..][..|Pack(es)|] == m1[HEADER_LEN..end];
    }
  }

  /** Two adjacent writes are one. */
  lemma OverwriteTwice(m: seq<byte>, o: nat, a: seq<byte>, b: seq<byte>)
    requires o + |a| + |b| <= |m|
    ensures Overwrite(Overwrite(m, o, a), o + |a|, b) == Overwrite(m, o, a + b)
  {
    var m1 := Overwrite(m, o, a);
    assert m1 == m[..o] + a + m[o + |a|..];
    assert m1[..o + |a|] == m[..o] + a;
    assert m1[o + |a| + |b|..] == m[o + |a| + |b|..];
  }
}
