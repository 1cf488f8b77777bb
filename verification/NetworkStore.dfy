/** The network file, shared by three protocols: each finds, lists and deletes its own records
    and steps over those of the others. */
module NetworkStore {
  import opened Bytes
  import opened Tlv
  import opened Nvram
  import opened RecordChain
  import opened Fields
  import opened NetworkRecord

  const ERROR_INEXISTENCE: int := -10210008
  const ERROR_INDEX_EXCEED: int := -10210009

  predicate Is(n: Network, p: Protocol, index: byte) {
    n.protocol == p && n.index == index
  }

  /** Position of the first network with this protocol and index, or |ns|. */
  function Position(ns: seq<Network>, p: Protocol, index: byte): (i: nat)
    ensures i <= |ns|
    ensures i < |ns| ==> Is(ns[i], p, index)
    ensures forall j :: 0 <= j < i ==> !Is(ns[j], p, index)
  {
    if ns == [] then 0 else if Is(ns[0], p, index) then 0 else 1 + Position(ns[1..], p, index)
  }

  /** The networks of one protocol, in stored order. */
  function Only(ns: seq<Network>, p: Protocol): (r: seq<Network>)
    ensures |r| <= |ns|
  {
    if ns == [] then [] else (if ns[0].protocol == p then [ns[0]] else []) + Only(ns[1..], p)
  }

  /** Network i of a held region: its tag, its index octet and its record. */
  lemma NetworkAt(m: seq<byte>, ns: seq<Network>, i: nat)
    requires HoldsNetworks(m, ns) && i < |ns|
    ensures ns[i] in ns && WellFormed(ns[i]) && Storable(FieldsOf(ns[i]))
    ensures var o := Offset(Entries(ns), i);
      && Offset(Entries(ns), i + 1) == o + PREFIX_LEN + |Record(FieldsOf(ns[i]))| <= |m|
      && m[o..o + TAG_LEN] == Tag(ns[i].protocol)
      && m[o + TAG_LEN] == ns[i].index
      && RecordAt(m, o + PREFIX_LEN, FieldsOf(ns[i]))
  {
    assert ns[i] in ns;
    Layout(ns[i]);
    EntryAt(m, PREFIX_LEN, Entries(ns), i);
    EntryParts(m, Offset(Entries(ns), i), Tag(ns[i].protocol), ns[i].index, Record(FieldsOf(ns[i])));
  }

  lemma EntryParts(m: seq<byte>, o: nat, tag: seq<byte>, index: byte, record: seq<byte>)
    requires |tag| == TAG_LEN && o + PREFIX_LEN + |record| <= |m|
    requires m[o..o + PREFIX_LEN + |record|] == tag + [index] + record
    ensures m[o..o + TAG_LEN] == tag && m[o + TAG_LEN] == index
    ensures m[o + PREFIX_LEN..o + PREFIX_LEN + |record|] == record
  {
    var e := tag + [index] + record;
    SliceOfSlice(m, o, |e|, 0, TAG_LEN);
    SliceOfSlice(m, o, |e|, PREFIX_LEN, |e|);
    assert m[o + TAG_LEN] == m[o..o + |e|][TAG_LEN] == e[TAG_LEN];
  }

  /** Reads the protocol tag of network i. */
  method ReadTag(dev: Device, p: Protocol, offset: nat, ghost ns: seq<Network>, ghost i: nat)
    returns (code: int, mine: bool)
    requires HoldsNetworks(dev.mem[..], ns) && i < |ns| && offset == Offset(Entries(ns), i)
    modifies dev`log
    ensures dev.log == old(dev.log) + [code == SUCCESS] && code <= SUCCESS
    ensures code == SUCCESS ==> mine == (ns[i].protocol == p)
  {
    NetworkAt(dev.mem[..], ns, i);
    TagInjective(ns[i].protocol, p);
    var octets;
    code, octets := dev.Read(offset, TAG_LEN);
    mine := octets == Tag(p);
  }

  method ReadIndexOctet(dev: Device, offset: nat, ghost ns: seq<Network>, ghost i: nat) returns (code: int, index: byte)
    requires HoldsNetworks(dev.mem[..], ns) && i < |ns| && offset == Offset(Entries(ns), i)
    modifies dev`log
    ensures dev.log == old(dev.log) + [code == SUCCESS] && code <= SUCCESS
    ensures code == SUCCESS ==> index == ns[i].index
  {
    NetworkAt(dev.mem[..], ns, i);
    var octets;
    index := 0;
    code, octets := dev.Read(offset + TAG_LEN, 1);
    if code == SUCCESS {
      index := octets[0];
    }
  }

  /** Walks to the first network with this protocol and index. Deletion (`always`) reads the
      length of every record it passes and of the one it stops at. */
  method Locate(dev: Device, p: Protocol, index: byte, num: nat, always: bool, ghost ns: seq<Network>)
    returns (code: int, i: nat, offset: nat, next: nat)
    requires HoldsNetworks(dev.mem[..], ns) && num == |ns|
    modifies dev`log
    ensures old(dev.log) <= dev.log && code <= SUCCESS
    ensures |dev.log| <= |old(dev.log)| + (3 * Position(ns, p, index) + 3)
    ensures code == SUCCESS && always && i < num ==> |dev.log| == |old(dev.log)| + (3 * i + 3)
    ensures code == SUCCESS <==> dev.CleanSince(|old(dev.log)|)
    ensures code == SUCCESS ==> i == Position(ns, p, index) && offset == Offset(Entries(ns), i)
    ensures code == SUCCESS && always && i < num ==> next == Offset(Entries(ns), i + 1)
  {
    code, i, offset, next := Walk(dev, p, index, num, always, ns, Entries(ns), Position(ns, p, index));
  }

  /** The loop of the search; `position` is where it ends. */
  method Walk(dev: Device, p: Protocol, index: byte, num: nat, always: bool, ghost ns: seq<Network>,
              ghost es: seq<seq<byte>>, ghost position: nat)
    returns (code: int, i: nat, offset: nat, next: nat)
    requires HoldsNetworks(dev.mem[..], ns) && num == |ns| && es == Entries(ns)
    requires position <= num && (position < num ==> Is(ns[position], p, index))
    requires forall j :: 0 <= j < position ==> !Is(ns[j], p, index)
    modifies dev`log
    ensures old(dev.log) <= dev.log && code <= SUCCESS
    ensures |dev.log| <= |old(dev.log)| + (3 * position + 3)
    ensures code == SUCCESS && always && i < num ==> |dev.log| == |old(dev.log)| + (3 * i + 3)
    ensures code == SUCCESS <==> dev.CleanSince(|old(dev.log)|)
    ensures code == SUCCESS ==> i == position && offset == Offset(es, i)
    ensures code == SUCCESS && always && i < num ==> next == Offset(es, i + 1)
  {
    code, i, offset, next := SUCCESS, 0, HEADER_LEN, HEADER_LEN;
    assert Offset(es, 0) == HEADER_LEN;
    while i < num
      invariant 0 <= i <= num && code == SUCCESS && offset == Offset(es, i)
      invariant i <= position
      invariant |dev.log| == |old(dev.log)| + 3 * i
      invariant old(dev.log) <= dev.log && dev.CleanSince(|old(dev.log)|)
    {
      var found;
      code, found, next := Examine(dev, p, index, offset, always, ns, i);
      if code != SUCCESS || found {
        return;
      }
      offset, i := next, i + 1;
    }
  }

  method Examine(dev: Device, p: Protocol, index: byte, offset: nat, always: bool, ghost ns: seq<Network>, ghost i: nat)
    returns (code: int, found: bool, next: nat)
    requires HoldsNetworks(dev.mem[..], ns) && i < |ns| && offset == Offset(Entries(ns), i)
    modifies dev`log
    ensures old(dev.log) <= dev.log && code <= SUCCESS
    ensures |dev.log| <= |old(dev.log)| + 3
    ensures code == SUCCESS && (always || !found) ==> |dev.log| == |old(dev.log)| + 3
    ensures code == SUCCESS <==> dev.CleanSince(|old(dev.log)|)
    ensures code == SUCCESS ==> found == Is(ns[i], p, index)
    ensures code == SUCCESS && (always || !found) ==> next == Offset(Entries(ns), i + 1)
  {
    var mine, networkIndex;
    found, next := false, offset;
    code, mine := ReadTag(dev, p, offset, ns, i);
    if code != SUCCESS {
      assert !dev.log[|dev.log| - 1];
      return;
    }
    code, networkIndex := ReadIndexOctet(dev, offset, ns, i);
    if code != SUCCESS {
      assert !dev.log[|dev.log| - 1];
      return;
    }
    found := networkIndex == index && mine;
    if always || !found {
      code, next := SkipEntry(dev, PREFIX_LEN, offset, Entries(ns), i);
      if code != SUCCESS {
        assert !dev.log[|dev.log| - 1];
      }
    }
  }

  /** Parses network i. */
  method ReadNetwork(dev: Device, p: Protocol, offset: nat, ghost ns: seq<Network>, ghost i: nat)
    returns (code: int, n: Network, next: nat)
    requires HoldsNetworks(dev.mem[..], ns) && i < |ns| && offset == Offset(Entries(ns), i)
    requires ns[i].protocol == p
    modifies dev`log
    ensures old(dev.log) <= dev.log && code <= SUCCESS
    ensures code == SUCCESS <==> dev.CleanSince(|old(dev.log)|)
    ensures code == SUCCESS ==> n == ns[i] && next == Offset(Entries(ns), i + 1)
  {
    NetworkAt(dev.mem[..], ns, i);
    code, n, next := FromNvram(dev, offset + PREFIX_LEN, Network(p, 0, [], 0, []), ns[i]);
    next := offset + PREFIX_LEN + next;
  }

  /** Reads the network of protocol p with the given index. */
  method GetByIndex(dev: Device, p: Protocol, index: byte, ghost ns: seq<Network>) returns (code: int, n: Network)
    requires HoldsNetworks(dev.mem[..], ns)
    modifies dev`log
    ensures old(dev.log) <= dev.log && code <= SUCCESS
    ensures index > MAX_RECORDS ==> code == ERROR_INDEX_EXCEED
    ensures code == SUCCESS ==> Position(ns, p, index) < |ns| && n == ns[Position(ns, p, index)]
    ensures code == SUCCESS ==> dev.CleanSince(|old(dev.log)|)
    ensures index <= MAX_RECORDS && dev.CleanSince(|old(dev.log)|) ==>
      code == if Position(ns, p, index) < |ns| then SUCCESS else ERROR_INEXISTENCE
  {
    n := Network(p, 0, [], 0, []);
    if index > MAX_RECORDS {
      return ERROR_INDEX_EXCEED, n;
    }
    var num;
    code, num := ReadHeader(dev, PREFIX_LEN, Entries(ns));
    if code != SUCCESS {
      assert !dev.log[|dev.log| - 1];
      return;
    }
    if num <= 0 {
      return ERROR_INEXISTENCE, n;
    }
    ghost var before := |dev.log|;
    var i, offset, next;
    code, i, offset, next := Locate(dev, p, index, num, false, ns);
    assert dev.CleanSince(|old(dev.log)|) ==> dev.CleanSince(before);
    if code != SUCCESS {
      return;
    }
    if i >= num {
      return ERROR_INEXISTENCE, n;
    }
    before := |dev.log|;
    code, n, next := ReadNetwork(dev, p, offset, ns, i);
    assert dev.CleanSince(|old(dev.log)|) ==> dev.CleanSince(before);
  }

  /** Lists the networks of protocol p of one file, in stored order; the records of the other
      protocols are stepped over. Every network counts towards num. A header that cannot be read
      counts as an empty file. */
  method ListFile(dev: Device, p: Protocol, ghost ns: seq<Network>)
    returns (header: int, code: int, num: nat, listed: seq<Network>)
    requires HoldsNetworks(dev.mem[..], ns)
    modifies dev`log
    ensures old(dev.log) < dev.log && code <= SUCCESS
    ensures header == SUCCESS <==> dev.log[|old(dev.log)|]
    ensures code == SUCCESS <==> dev.CleanSince(|old(dev.log)|)
    ensures num == if header == SUCCESS then |ns| else 0
    ensures code == SUCCESS ==> listed == Only(ns, p)
    ensures header != SUCCESS ==> listed == []
  {
    listed := [];
    header, num := StartCount(dev, false, PREFIX_LEN, Entries(ns));
    code := header;
    if header == SUCCESS {
      ghost var before := |dev.log|;
      assert ns[..num] == ns;
      code, listed := ListAll(dev, p, num, ns);
      assert dev.CleanSince(|old(dev.log)|) <==> dev.CleanSince(before);
    } else {
      assert !dev.log[|old(dev.log)|];
    }
  }

  /** Lists the networks of protocol p: the persistent ones, then the one-time network. */
  method List(flash: Device, ram: Device, p: Protocol, ghost ns: seq<Network>, ghost rs: seq<Network>)
    returns (code: int, num: nat, listed: seq<Network>)
    requires flash != ram && HoldsNetworks(flash.mem[..], ns) && HoldsNetworks(ram.mem[..], rs)
    modifies flash`log, ram`log
    ensures old(flash.log) < flash.log && old(ram.log) <= ram.log && code <= SUCCESS
    ensures code == SUCCESS <==>
      (flash.CleanSince(|old(flash.log)|) || !flash.log[|old(flash.log)|]) &&
      old(ram.log) < ram.log && ram.CleanSince(|old(ram.log)|)
    ensures code == SUCCESS ==> num == (if flash.log[|old(flash.log)|] then |ns| else 0) + |rs|
    ensures code == SUCCESS ==> listed == (if flash.log[|old(flash.log)|] then Only(ns, p) else []) + Only(rs, p)
  {
    var header, more, ramNum;
    header, code, num, listed := ListFile(flash, p, ns);
    if header == SUCCESS && code != SUCCESS {
      return;
    }
    header, code, ramNum, more := ListFile(ram, p, rs);
    num, listed := num + ramNum, listed + more;
  }

  method ListAll(dev: Device, p: Protocol, num: nat, ghost ns: seq<Network>) returns (code: int, listed: seq<Network>)
    requires HoldsNetworks(dev.mem[..], ns) && num <= |ns|
    modifies dev`log
    ensures old(dev.log) <= dev.log && code <= SUCCESS
    ensures code == SUCCESS <==> dev.CleanSince(|old(dev.log)|)
    ensures code == SUCCESS ==> listed == Only(ns[..num], p)
  {
    code, listed := SUCCESS, [];
    var offset, i := HEADER_LEN, 0;
    assert Offset(Entries(ns), 0) == HEADER_LEN;
    while i < num
      invariant 0 <= i <= num && code == SUCCESS && offset == Offset(Entries(ns), i)
      invariant listed == Only(ns[..i], p)
      invariant old(dev.log) <= dev.log && dev.CleanSince(|old(dev.log)|)
    {
      var more, next;
      code, more, next := ListOne(dev, p, offset, ns, i);
      if code != SUCCESS {
        return;
      }
      OnlySnoc(ns, p, i);
      listed := listed + more;
      offset, i := next, i + 1;
    }
  }

  lemma OnlySnoc(ns: seq<Network>, p: Protocol, i: nat)
    requires i < |ns|
    ensures Only(ns[..i + 1], p) == Only(ns[..i], p) + if ns[i].protocol == p then [ns[i]] else []
  {
    OnlyConcat(ns[..i], [ns[i]], p);
    assert ns[..i + 1] == ns[..i] + [ns[i]];
    assert [ns[i]][1..] == [];
  }

  lemma {:induction false} OnlyConcat(a: seq<Network>, b: seq<Network>, p: Protocol)
    ensures Only(a + b, p) == Only(a, p) + Only(b, p)
  {
    if a == [] {
      assert a + b == b;
    } else {
      OnlyConcat(a[1..], b, p);
      assert (a + b)[1..] == a[1..] + b && (a + b)[0] == a[0];
      ConcatAssoc(if a[0].protocol == p then [a[0]] else [], Only(a[1..], p), Only(b, p));
    }
  }

  method ListOne(dev: Device, p: Protocol, offset: nat, ghost ns: seq<Network>, ghost i: nat)
    returns (code: int, more: seq<Network>, next: nat)
    requires HoldsNetworks(dev.mem[..], ns) && i < |ns| && offset == Offset(Entries(ns), i)
    modifies dev`log
    ensures old(dev.log) <= dev.log && code <= SUCCESS
    ensures code == SUCCESS <==> dev.CleanSince(|old(dev.log)|)
    ensures code == SUCCESS ==> next == Offset(Entries(ns), i + 1)
    ensures code == SUCCESS ==> more == if ns[i].protocol == p then [ns[i]] else []
  {
    var mine;
    more, next := [], offset;
    code, mine := ReadTag(dev, p, offset, ns, i);
    if code != SUCCESS {
      assert !dev.log[|dev.log| - 1];
      return;
    }
    if mine {
      var n;
      code, n, next := ReadNetwork(dev, p, offset, ns, i);
      more := [n];
    } else {
      code, next := SkipEntry(dev, PREFIX_LEN, offset, Entries(ns), i);
      if code != SUCCESS {
        assert !dev.log[|dev.log| - 1];
      }
    }
  }

  function Indices(ns: seq<Network>): (s: set<int>)
    ensures forall i :: i in s <==> exists n :: n in ns && n.index as int == i
  {
    set n | n in ns :: n.index as int
  }

  /** Reads the indices of all networks, whatever their protocol. */
  method ReadIndices(dev: Device, num: nat, ghost ns: seq<Network>) returns (code: int, indexBytes: seq<int>)
    requires HoldsNetworks(dev.mem[..], ns) && num <= |ns|
    modifies dev`log
    ensures old(dev.log) <= dev.log && code <= SUCCESS
    ensures |dev.log| <= |old(dev.log)| + 2 * num
    ensures code == SUCCESS ==> |dev.log| == |old(dev.log)| + 2 * num
    ensures code == SUCCESS <==> dev.CleanSince(|old(dev.log)|)
    ensures code == SUCCESS ==> |indexBytes| == num && forall j :: 0 <= j < num ==> indexBytes[j] == ns[j].index
  {
    code, indexBytes := SUCCESS, [];
    var offset, i := HEADER_LEN, 0;
    ghost var es := Entries(ns);
    assert Offset(es, 0) == HEADER_LEN;
    while i < num
      invariant 0 <= i <= num && code == SUCCESS && offset == Offset(es, i)
      invariant |dev.log| == |old(dev.log)| + 2 * i
      invariant |indexBytes| == i && forall j :: 0 <= j < i ==> indexBytes[j] == ns[j].index
      invariant old(dev.log) <= dev.log && dev.CleanSince(|old(dev.log)|)
    {
      var index;
      code, index, offset := IndexAndNext(dev, offset, ns, i, es);
      if code != SUCCESS {
        return;
      }
      indexBytes := indexBytes + [index as int];
      i := i + 1;
    }
  }

  /** The index of network i, and the start of the network behind it. */
  method IndexAndNext(dev: Device, offset: nat, ghost ns: seq<Network>, ghost i: nat, ghost es: seq<seq<byte>>)
    returns (code: int, index: byte, next: nat)
    requires HoldsNetworks(dev.mem[..], ns) && i < |ns| && es == Entries(ns) && offset == Offset(es, i)
    modifies dev`log
    ensures old(dev.log) <= dev.log && code <= SUCCESS
    ensures |dev.log| <= |old(dev.log)| + 2 && (code == SUCCESS ==> |dev.log| == |old(dev.log)| + 2)
    ensures code == SUCCESS <==> dev.CleanSince(|old(dev.log)|)
    ensures code == SUCCESS ==> index == ns[i].index && next == Offset(es, i + 1)
  {
    next := offset;
    code, index := ReadIndexOctet(dev, offset, ns, i);
    if code == SUCCESS {
      code, next := SkipEntry(dev, PREFIX_LEN, offset, Entries(ns), i);
    }
    if code != SUCCESS {
      assert !dev.log[|dev.log| - 1];
    }
  }

  /** The first index from 1 on that no network of any protocol has. A header that cannot be
      read counts as an empty file. */
  method FreeIndex(dev: Device, ghost ns: seq<Network>) returns (r: int)
    requires HoldsNetworks(dev.mem[..], ns)
    modifies dev`log
    ensures old(dev.log) < dev.log && r <= MAX_RECORDS && r != 0
    ensures |dev.log| <= |old(dev.log)| + ScanReads(|ns|, dev.log[|old(dev.log)|])
    ensures r > 0 ==> |dev.log| == |old(dev.log)| + ScanReads(|ns|, dev.log[|old(dev.log)|])
    ensures dev.CleanSince(|old(dev.log)|) ==> if |ns| == MAX_RECORDS then r == ERROR_INDEX_EXCEED else r > 0
    ensures r > 0 ==> (r in Indices(ns) <==> !dev.log[|old(dev.log)|] && 1 in Indices(ns))
    ensures r > 0 && dev.log[|old(dev.log)|] ==> forall i :: 1 <= i < r ==> i in Indices(ns)
    ensures r > 0 && !dev.log[|old(dev.log)|] ==> r == 1
  {
    var num, indexBytes, code;
    code, num := StartCount(dev, false, PREFIX_LEN, Entries(ns));
    if num >= MAX_RECORDS {
      return ERROR_INDEX_EXCEED;
    }
    ghost var before := |dev.log|;
    code, indexBytes := ReadIndices(dev, num, ns);
    assert dev.CleanSince(|old(dev.log)|) ==> dev.CleanSince(before);
    if code != SUCCESS {
      return code;
    }
    r := FirstFree(indexBytes);
    ReadIndicesMeaning(indexBytes, ns[..num]);
    assert num == |ns| ==> ns[..num] == ns;
    assert forall i :: 1 <= i < r ==> i in Indices(ns[..num]);
    if num == 0 {
      assert indexBytes == [];
      assert r > 1 ==> 1 in indexBytes;
    }
  }

  lemma ReadIndicesMeaning(indexBytes: seq<int>, ns: seq<Network>)
    requires |indexBytes| == |ns| && forall j :: 0 <= j < |ns| ==> indexBytes[j] == ns[j].index
    ensures forall i :: i in Indices(ns) <==> i in indexBytes
  {
    forall i | i in Indices(ns) ensures i in indexBytes {
      var n :| n in ns && n.index as int == i;
      var j :| 0 <= j < |ns| && ns[j] == n;
      assert indexBytes[j] == i;
    }
    forall i | i in indexBytes ensures i in Indices(ns) {
      var j :| 0 <= j < |ns| && indexBytes[j] == i;
      assert ns[j] in ns;
    }
  }

  /** The nested search for the first number in 1..MAX_RECORDS that is not listed. */
  method FirstFree(indexBytes: seq<int>) returns (r: int)
    requires |indexBytes| < MAX_RECORDS
    ensures 1 <= r <= MAX_RECORDS && r !in indexBytes
    ensures forall i :: 1 <= i < r ==> i in indexBytes
  {
    ghost var free := FreeNumber(indexBytes);
    var i := 1;
    while i <= MAX_RECORDS
      invariant 1 <= i <= free
      invariant forall l :: 1 <= l < i ==> l in indexBytes
    {
      var j := 0;
      while j < |indexBytes| && indexBytes[j] != i
        invariant 0 <= j <= |indexBytes|
        invariant i !in indexBytes[..j]
      {
        j := j + 1;
      }
      if j == |indexBytes| {
        assert indexBytes[..j] == indexBytes;
        return i;
      }
      assert indexBytes[j] == i;
      i := i + 1;
    }
    return ERROR;
  }

  lemma FreeNumber(s: seq<int>) returns (free: int)
    requires |s| < MAX_RECORDS
    ensures 1 <= free <= MAX_RECORDS && free !in s
  {
    SetBound((set i | i in s), s);
    free := SomeFree(set i | i in s);
  }

  lemma EntriesSnoc(ns: seq<Network>, n: Network)
    requires WellFormed(n) && AllWellFormed(ns)
    ensures AllWellFormed(ns + [n]) && Entries(ns + [n]) == Entries(ns) + [Entry(n)]
    ensures Entries([n]) == [Entry(n)] == [] + [Entry(n)] && [n] == [] + [n]
  {
  }

  lemma EntriesWithout(ns: seq<Network>, i: nat)
    requires i < |ns| && AllWellFormed(ns)
    ensures AllWellFormed(Without(ns, i)) && AllWellFormed(ns[..i])
    ensures Entries(Without(ns, i)) == Without(Entries(ns), i)
    ensures Entries(ns[..i]) == Entries(ns)[..i]
  {
  }

  /** The octets to store: allocation, then serialisation. */
  method Prepare(dev: Device, n: Network) returns (code: int, octets: seq<byte>)
    requires WellFormed(n)
    modifies dev`log
    ensures dev.log == old(dev.log) + [code == SUCCESS] && code <= SUCCESS
    ensures Storable(FieldsOf(n))
    ensures code == SUCCESS ==> octets == Record(FieldsOf(n))
  {
    octets := [];
    var len := DataLen(n);
    var ok := dev.Allocate();
    if !ok {
      return ERROR, [];
    }
    var data := new byte[len];
    code, len := Serialize(n, data);
    octets := data[..];
  }

  // A store in terms of its operations, which are those behind the first `start`, on a file of n
  // networks

  function StoreOps(n: nat): nat {
    n + 6
  }

  /** Whether a store goes through. */
  predicate Stored(n: nat, onetime: bool, log: seq<bool>, start: nat) {
    (HeaderRead(log, start) ==> n < MAX_RECORDS) && !FailedWithin(log, start + 1, Base(n, onetime, log, start) + 5)
  }

  /** The octets that a failing store of so many operations has written over the first record, if
      it took the file for empty: nothing, the tag, the tag and the index octet, or the entry. */
  function Written(n: Network, ops: nat): seq<byte>
    requires WellFormed(n)
  {
    if ops < 4 then [] else if ops == 4 then Tag(n.protocol) else if ops == 5 then Tag(n.protocol) + [n.index] else Entry(n)
  }

  /** These octets stand where the first record of the list stood, under the old count. */
  ghost predicate LeftBlind(m: seq<byte>, ns: seq<Network>, n: Network, ops: nat) {
    WellFormed(n) && exists was :: HoldsNetworks(was, ns) && Wrote(was, HEADER_LEN, Written(n, ops), m)
  }

  /** What a store that took the file for empty leaves when it fails: the list exactly if the octets
      are those that stood there. With the tag alone written, the first network has changed its
      protocol. With the index octet written too, no list of networks is left, unless the index is
      the same one. The whole entry leaves a list if it fits where the first one was. */
  lemma LeftBlindMeaning(m: seq<byte>, ns: seq<Network>, n: Network, ops: nat)
    requires LeftBlind(m, ns, n, ops)
    ensures HoldsNetworks(m, ns) <==> ns == [] || Written(n, ops) <= Entry(ns[0])
    ensures ns != [] && ops == 4 ==> HoldsNetworks(m, Relabelled(ns, n.protocol))
    ensures ns != [] && ops == 5 ==>
      if ns[0].index == n.index then HoldsNetworks(m, Relabelled(ns, n.protocol)) else forall ls :: !HoldsNetworks(m, ls)
    ensures ns != [] && ops >= 6 ==> forall ls :: HoldsNetworks(m, ls) ==> |ls| == |ns| && Entry(ls[0]) == Entry(n)
    ensures ns != [] && ops >= 6 && (|ns| == 1 || |Entry(ns[0])| == |Entry(n)|) ==> HoldsNetworks(m, [n] + ns[1..])
  {
    var was :| HoldsNetworks(was, ns) && Wrote(was, HEADER_LEN, Written(n, ops), m);
    EntryIsEntry(n);
    if ns == [] {
      assert Offset(Entries(ns), 0) == HEADER_LEN;
      if Written(n, ops) != [] {
        WrittenBehind(was, PREFIX_LEN, Entries(ns), HEADER_LEN, Written(n, ops));
      }
    } else {
      EntryIsEntry(ns[0]);
      FirstKept(was, PREFIX_LEN, Entries(ns), Written(n, ops), m);
      if ops == 4 {
        TagOver(was, ns, n.protocol, m);
      } else if ops == 5 {
        PrefixOver(was, ns, n, m);
      } else if ops >= 6 {
        EntryOver(was, ns, n, m);
      }
    }
  }

  /** The list with the first network taken over by protocol p. */
  function Relabelled(ns: seq<Network>, p: Protocol): (r: seq<Network>)
    requires ns != []
  {
    [ns[0].(protocol := p)] + ns[1..]
  }

  lemma TagOver(was: seq<byte>, ns: seq<Network>, p: Protocol, m: seq<byte>)
    requires HoldsNetworks(was, ns) && ns != [] && Wrote(was, HEADER_LEN, Tag(p), m)
    ensures HoldsNetworks(m, Relabelled(ns, p))
  {
    var l := ns[0].(protocol := p);
    EntriesReplaced(ns, l);
    EntryIsEntry(l);
    Layout(l);
    Retagged(ns[0], l, Record(FieldsOf(l)));
    FirstRewritten(was, PREFIX_LEN, Entries(ns), Tag(p), Entry(l), m);
  }

  lemma Retagged(n: Network, l: Network, record: seq<byte>)
    requires WellFormed(n) && l == n.(protocol := l.protocol) && Storable(FieldsOf(l)) && record == Record(FieldsOf(l))
    ensures Entry(l) == Tag(l.protocol) + Entry(n)[TAG_LEN..]
  {
    assert FieldsOf(n) == FieldsOf(l);
    assert (Tag(n.protocol) + [n.index] + record)[TAG_LEN..] == [n.index] + record;
    ConcatAssoc(Tag(l.protocol), [n.index], record);
  }

  lemma PrefixOver(was: seq<byte>, ns: seq<Network>, n: Network, m: seq<byte>)
    requires HoldsNetworks(was, ns) && ns != [] && Wrote(was, HEADER_LEN, Tag(n.protocol) + [n.index], m)
    ensures if ns[0].index == n.index then HoldsNetworks(m, Relabelled(ns, n.protocol))
            else forall ls :: !HoldsNetworks(m, ls)
  {
    var w := Tag(n.protocol) + [n.index];
    var e := w + Entry(ns[0])[PREFIX_LEN..];
    EntryIsEntry(ns[0]);
    assert e[PREFIX_LEN..PREFIX_LEN + 3] == Entry(ns[0])[PREFIX_LEN..PREFIX_LEN + 3];
    FirstRewritten(was, PREFIX_LEN, Entries(ns), w, e, m);
    if ns[0].index == n.index {
      EntriesReplaced(ns, ns[0].(protocol := n.protocol));
      assert e == Entry(ns[0].(protocol := n.protocol));
    } else {
      forall ls ensures !HoldsNetworks(m, ls) {
        if HoldsNetworks(m, ls) {
          HoldsUnique(m, PREFIX_LEN, Entries(ls), [e] + Entries(ns)[1..]);
          IndexInside(ls[0], ns[0], n, e);
          assert false;
        }
      }
    }
  }

  /** An entry carries its index twice: in front of the record and in it. */
  lemma IndexInside(l: Network, first: Network, n: Network, e: seq<byte>)
    requires WellFormed(l) && WellFormed(first)
    requires Entry(l) == e == Tag(n.protocol) + [n.index] + Entry(first)[PREFIX_LEN..]
    ensures first.index == n.index
  {
    Layout(l);
    Layout(first);
    assert e[PREFIX_LEN..] == Record(FieldsOf(l)) == Record(FieldsOf(first));
    assert e[TAG_LEN] == l.index == n.index;
    RecordIndex(l);
    RecordIndex(first);
  }

  lemma RecordIndex(n: Network)
    requires WellFormed(n)
    ensures Storable(FieldsOf(n))
    ensures |Record(FieldsOf(n))| >= 5 && Record(FieldsOf(n))[LengthWidth(|Payload(FieldsOf(n))|) + 1] == n.index
  {
    Layout(n);
  }

  lemma EntryOver(was: seq<byte>, ns: seq<Network>, n: Network, m: seq<byte>)
    requires HoldsNetworks(was, ns) && ns != [] && WellFormed(n) && Wrote(was, HEADER_LEN, Entry(n), m)
    ensures forall ls :: HoldsNetworks(m, ls) ==> |ls| == |ns| && Entry(ls[0]) == Entry(n)
    ensures |ns| == 1 || |Entry(ns[0])| == |Entry(n)| ==> HoldsNetworks(m, [n] + ns[1..])
  {
    var es := Entries(ns);
    EntryIsEntry(n);
    forall ls | HoldsNetworks(m, ls) ensures |ls| == |ns| && Entry(ls[0]) == Entry(n) {
      StartsWith(was, PREFIX_LEN, es, Entry(n), m, Entries(ls));
    }
    EntriesReplaced(ns, n);
    if |ns| == 1 || |Entry(ns[0])| == |Entry(n)| {
      FirstReplaced(was, PREFIX_LEN, es, Entry(n), m);
    }
  }

  lemma EntriesReplaced(ns: seq<Network>, n: Network)
    requires AllWellFormed(ns) && ns != [] && WellFormed(n)
    ensures AllWellFormed([n] + ns[1..]) && Entries([n] + ns[1..]) == [Entry(n)] + Entries(ns)[1..]
  {
  }

  /** Stores a network: tag, index and record are written one after the other, then the count.
      A header that cannot be read counts as an empty file. */
  method StoreData(dev: Device, onetime: bool, n: Network, ghost ns: seq<Network>) returns (code: int)
    requires WellFormed(n) && HoldsNetworks(dev.mem[..], ns)
    modifies dev`log, dev.mem
    ensures old(dev.log) < dev.log && code <= SUCCESS
    ensures code == SUCCESS <==> Stored(|ns|, onetime, dev.log, |old(dev.log)|)
    ensures code == SUCCESS ==>
      |dev.log| == |old(dev.log)| + StoreOps(Base(|ns|, onetime, dev.log, |old(dev.log)|))
    ensures code == SUCCESS ==>
      var kept := if onetime || !HeaderRead(dev.log, |old(dev.log)|) then [] else ns;
      |kept| < MAX_RECORDS && HoldsNetworks(dev.mem[..], kept + [n])
    ensures code != SUCCESS && !onetime && HeaderRead(dev.log, |old(dev.log)|) ==> HoldsNetworks(dev.mem[..], ns)
    ensures code != SUCCESS && (onetime || !HeaderRead(dev.log, |old(dev.log)|)) ==>
      LeftBlind(dev.mem[..], ns, n, |dev.log| - |old(dev.log)|)
    ensures dev.CleanSince(|old(dev.log)|) ==> code == if |ns| >= MAX_RECORDS then ERROR_INDEX_EXCEED else SUCCESS
  {
    code := StoreEntry(dev, onetime, n, Entries(ns));
    EntriesSnoc(ns, n);
  }

  method StoreEntry(dev: Device, onetime: bool, n: Network, ghost es: seq<seq<byte>>) returns (code: int)
    requires WellFormed(n) && Holds(dev.mem[..], PREFIX_LEN, es)
    modifies dev`log, dev.mem
    ensures old(dev.log) < dev.log && code <= SUCCESS
    ensures code == SUCCESS <==> Stored(|es|, onetime, dev.log, |old(dev.log)|)
    ensures code == SUCCESS ==>
      |dev.log| == |old(dev.log)| + StoreOps(Base(|es|, onetime, dev.log, |old(dev.log)|))
    ensures code == SUCCESS ==>
      var kept := if onetime || !HeaderRead(dev.log, |old(dev.log)|) then [] else es;
      |kept| < MAX_RECORDS && Holds(dev.mem[..], PREFIX_LEN, kept + [Entry(n)])
    ensures code != SUCCESS && !onetime && HeaderRead(dev.log, |old(dev.log)|) ==> Holds(dev.mem[..], PREFIX_LEN, es)
    ensures code != SUCCESS && (onetime || !HeaderRead(dev.log, |old(dev.log)|)) ==>
      Wrote(old(dev.mem[..]), HEADER_LEN, Written(n, |dev.log| - |old(dev.log)|), dev.mem[..])
    ensures dev.CleanSince(|old(dev.log)|) ==> code == if |es| >= MAX_RECORDS then ERROR_INDEX_EXCEED else SUCCESS
  {
    var num;
    code, num := StartCount(dev, onetime, PREFIX_LEN, es);
    if num >= MAX_RECORDS {
      return ERROR_INDEX_EXCEED;
    }
    ghost var before := |dev.log|;
    assert es[..num] == if onetime || !dev.log[before - 1] then [] else es;
    code := StoreFrom(dev, num, n, es);
    assert dev.CleanSince(|old(dev.log)|) <==> dev.log[|old(dev.log)|] && dev.CleanSince(before);
  }

  /** A store that takes the file to hold num records. */
  method StoreFrom(dev: Device, num: nat, n: Network, ghost es: seq<seq<byte>>) returns (code: int)
    requires WellFormed(n) && Holds(dev.mem[..], PREFIX_LEN, es)
    requires num < MAX_RECORDS && (num == 0 || num == |es|)
    modifies dev`log, dev.mem
    ensures old(dev.log) < dev.log && code <= SUCCESS
    ensures code == SUCCESS <==> !FailedWithin(dev.log, |old(dev.log)|, num + 5)
    ensures code == SUCCESS <==> dev.CleanSince(|old(dev.log)|)
    ensures code == SUCCESS ==> |dev.log| == |old(dev.log)| + num + 5 && Holds(dev.mem[..], PREFIX_LEN, es[..num] + [Entry(n)])
    ensures code != SUCCESS && num == |es| ==> Holds(dev.mem[..], PREFIX_LEN, es)
    ensures code != SUCCESS && num == 0 ==>
      Wrote(old(dev.mem[..]), HEADER_LEN, Written(n, |dev.log| - |old(dev.log)| + 1), dev.mem[..])
  {
    var offset;
    code, offset := FindEnd(dev, PREFIX_LEN, num, es);
    if code == SUCCESS {
      ghost var before := |dev.log|;
      code := StoreAt(dev, num, offset, n, es);
      assert dev.CleanSince(|old(dev.log)|) <==> dev.CleanSince(before);
    } else {
      assert !dev.log[|dev.log| - 1];
    }
  }

  method StoreAt(dev: Device, num: nat, offset: nat, n: Network, ghost es: seq<seq<byte>>) returns (code: int)
    requires WellFormed(n) && Holds(dev.mem[..], PREFIX_LEN, es)
    requires num < MAX_RECORDS && (num == 0 || num == |es|) && offset == Offset(es, num)
    modifies dev`log, dev.mem
    ensures old(dev.log) < dev.log && |dev.log| <= |old(dev.log)| + 5 && code <= SUCCESS
    ensures code == SUCCESS <==> dev.CleanSince(|old(dev.log)|)
    ensures code == SUCCESS ==> |dev.log| == |old(dev.log)| + 5 && Holds(dev.mem[..], PREFIX_LEN, es[..num] + [Entry(n)])
    ensures code != SUCCESS && num == |es| ==> Holds(dev.mem[..], PREFIX_LEN, es)
    ensures code != SUCCESS ==> Wrote(old(dev.mem[..]), offset, Written(n, |dev.log| - |old(dev.log)| + 1), dev.mem[..])
  {
    var octets;
    code, octets := Prepare(dev, n);
    if code == SUCCESS {
      ghost var before := |dev.log|;
      EntryIsEntry(n);
      code := Commit3(dev, num, offset, Tag(n.protocol), [n.index], octets, es);
      assert dev.CleanSince(|old(dev.log)|) <==> dev.CleanSince(before);
    } else {
      assert !dev.log[|dev.log| - 1];
    }
  }

  /** Writes the three parts of an entry, then the count. */
  method Commit3(dev: Device, num: nat, offset: nat, a: seq<byte>, b: seq<byte>, c: seq<byte>, ghost es: seq<seq<byte>>)
    returns (code: int)
    requires IsEntry(PREFIX_LEN, a + b + c) && Holds(dev.mem[..], PREFIX_LEN, es)
    requires num < MAX_RECORDS && (num == 0 || num == |es|) && offset == Offset(es, num)
    modifies dev`log, dev.mem
    ensures old(dev.log) < dev.log && code <= SUCCESS
    ensures |dev.log| <= |old(dev.log)| + 4 && (code == SUCCESS ==> |dev.log| == |old(dev.log)| + 4)
    ensures code == SUCCESS <==> dev.CleanSince(|old(dev.log)|)
    ensures code == SUCCESS ==> Holds(dev.mem[..], PREFIX_LEN, es[..num] + [a + b + c])
    ensures code != SUCCESS && num == |es| ==> Holds(dev.mem[..], PREFIX_LEN, es)
    ensures code != SUCCESS ==> Wrote(old(dev.mem[..]), offset, Parts(a, b, c, |dev.log| - |old(dev.log)| - 1), dev.mem[..])
  {
    ghost var m, written := dev.mem[..], [];
    code, written := WriteParts(dev, offset, a, b, c);
    if code != SUCCESS {
      if num == |es| && written != [] {
        WrittenBehind(m, PREFIX_LEN, es, offset, written);
      }
      return;
    }
    Committed(m, PREFIX_LEN, num, a + b + c, es);
    code := dev.Write(0, Header(num + 1));
    if code != SUCCESS {
      assert !dev.log[|dev.log| - 1];
    }
  }

  /** The first k of three parts. */
  function Parts(a: seq<byte>, b: seq<byte>, c: seq<byte>, k: int): seq<byte> {
    if k <= 0 then [] else if k == 1 then a else if k == 2 then a + b else a + b + c
  }

  /** `written` is the part of a + b + c that has reached the region. */
  method WriteParts(dev: Device, offset: nat, a: seq<byte>, b: seq<byte>, c: seq<byte>)
    returns (code: int, ghost written: seq<byte>)
    modifies dev`log, dev.mem
    ensures old(dev.log) < dev.log && code <= SUCCESS
    ensures |dev.log| <= |old(dev.log)| + 3 && (code == SUCCESS ==> |dev.log| == |old(dev.log)| + 3)
    ensures code == SUCCESS ==> dev.CleanSince(|old(dev.log)|) && written == a + b + c
    ensures code != SUCCESS ==> !dev.log[|dev.log| - 1] && written == Parts(a, b, c, |dev.log| - |old(dev.log)| - 1)
    ensures Wrote(old(dev.mem[..]), offset, written, dev.mem[..])
  {
    ghost var m := dev.mem[..];
    code, written := WriteNext(dev, offset, offset, a, m, []);
    assert [] + a == a;
    if code == SUCCESS {
      code, written := WriteRest(dev, offset, offset + |a|, b, c, m, written);
    }
  }

  method WriteRest(dev: Device, ghost offset: nat, at: nat, b: seq<byte>, c: seq<byte>, ghost m: seq<byte>, ghost a: seq<byte>)
    returns (code: int, ghost written: seq<byte>)
    requires at == offset + |a| && Wrote(m, offset, a, dev.mem[..])
    modifies dev`log, dev.mem
    ensures old(dev.log) < dev.log && code <= SUCCESS
    ensures |dev.log| <= |old(dev.log)| + 2 && (code == SUCCESS ==> |dev.log| == |old(dev.log)| + 2)
    ensures code == SUCCESS ==> dev.CleanSince(|old(dev.log)|) && written == a + b + c
    ensures code != SUCCESS ==> !dev.log[|dev.log| - 1] && written == Parts(a, b, c, |dev.log| - |old(dev.log)|)
    ensures Wrote(m, offset, written, dev.mem[..])
  {
    code, written := WriteNext(dev, offset, at, b, m, a);
    if code == SUCCESS {
      code, written := WriteNext(dev, offset, at + |b|, c, m, written);
    }
  }

  /** One more part, behind those already written. */
  method WriteNext(dev: Device, ghost offset: nat, at: nat, part: seq<byte>, ghost m: seq<byte>, ghost done: seq<byte>)
    returns (code: int, ghost written: seq<byte>)
    requires at == offset + |done| && Wrote(m, offset, done, dev.mem[..])
    modifies dev`log, dev.mem
    ensures dev.log == old(dev.log) + [code == SUCCESS] && code <= SUCCESS
    ensures written == if code == SUCCESS then done + part else done
    ensures Wrote(m, offset, written, dev.mem[..])
  {
    code := dev.Write(at, part);
    written := if code == SUCCESS then done + part else done;
    if code == SUCCESS {
      WroteNext(m, offset, done, part, old(dev.mem[..]), dev.mem[..]);
    }
  }

  lemma WroteNext(m: seq<byte>, offset: nat, done: seq<byte>, part: seq<byte>, m1: seq<byte>, m2: seq<byte>)
    requires Wrote(m, offset, done, m1) && offset + |done| + |part| <= |m1|
    requires m2 == Overwrite(m1, offset + |done|, part)
    ensures Wrote(m, offset, done + part, m2)
  {
    if done == [] {
      assert done + part == part;
      OverwriteNothing(m1, offset);
    } else {
      OverwriteTwice(m, offset, done, part);
      assert done + part != [];
    }
  }

  lemma OverwriteNothing(m: seq<byte>, offset: nat)
    requires offset <= |m|
    ensures Overwrite(m, offset, []) == m
  {
  }

  /** Operations of a creation before it stores: a free-index search whose header read fails
      takes the file for empty. */
  function ScanReads(n: nat, headerRead: bool): nat {
    if headerRead then 1 + 2 * n else 1
  }

  /** The first operation of the store of a creation in a file of n networks. The operations of the
      creation are those behind the first `start`. */
  function StoreStart(n: nat, log: seq<bool>, start: nat): nat
    requires start < |log|
  {
    start + ScanReads(n, log[start])
  }

  /** Whether that store could not read the header. */
  predicate StoreBlind(n: nat, log: seq<bool>, start: nat)
    requires start < |log|
  {
    var at := StoreStart(n, log, start);
    at < |log| && !log[at]
  }

  /** The index that a creation gives: 1 if the search could not read the header. */
  function Chosen(ns: seq<Network>, headerRead: bool): (index: byte)
    ensures 1 <= index <= MAX_RECORDS + 1
    ensures headerRead && index <= MAX_RECORDS ==> index as int !in Indices(ns)
  {
    if headerRead then LeastFree(Indices(ns), 1) else 1
  }

  /** Creates a persistent network of protocol p. If the store could not read the header (`blind`),
      the new network is written over the others; `at` is the number of operations before it. */
  method Create(dev: Device, p: Protocol, chainId: seq<byte>, eip155: byte, url: seq<byte>, ghost ns: seq<Network>)
    returns (r: int, blind: bool, at: nat)
    requires HoldsNetworks(dev.mem[..], ns) && WellFormed(Network(p, 0, chainId, eip155, url))
    modifies dev`log, dev.mem
    ensures old(dev.log) < dev.log && r <= MAX_RECORDS && r != 0
    ensures blind <==> StoreBlind(|ns|, dev.log, |old(dev.log)|)
    ensures blind ==> at == StoreStart(|ns|, dev.log, |old(dev.log)|)
    ensures at <= |dev.log| && (r > 0 <==> at < |dev.log| && Stored(|ns|, false, dev.log, at))
    ensures r > 0 ==> r == Chosen(ns, dev.log[|old(dev.log)|]) as int
    ensures r > 0 ==> HoldsNetworks(dev.mem[..], (if blind then [] else ns) + [Network(p, r, chainId, eip155, url)])
    ensures r < 0 && !blind ==> HoldsNetworks(dev.mem[..], ns)
    ensures r < 0 && blind ==>
      LeftBlind(dev.mem[..], ns, Network(p, Chosen(ns, dev.log[|old(dev.log)|]), chainId, eip155, url), |dev.log| - at)
    ensures dev.CleanSince(|old(dev.log)|) ==>
      !blind && if |ns| == MAX_RECORDS then r == ERROR_INDEX_EXCEED else r == LeastFree(Indices(ns), 1)
  {
    r := FreeIndex(dev, ns);
    blind, at := false, |dev.log|;
    if r < SUCCESS {
      return;
    }
    if dev.log[|old(dev.log)|] {
      LeastIs(Indices(ns), r);
    }
    r, blind := CreateAs(dev, Network(p, r, chainId, eip155, url), ns);
    assert dev.CleanSince(|old(dev.log)|) ==> dev.log[|old(dev.log)|] && dev.CleanSince(at);
  }

  /** The creation with the index chosen. */
  method CreateAs(dev: Device, n: Network, ghost ns: seq<Network>) returns (r: int, blind: bool)
    requires HoldsNetworks(dev.mem[..], ns) && WellFormed(n) && n.index >= 1
    modifies dev`log, dev.mem
    ensures old(dev.log) < dev.log && (r == n.index as int || r < 0)
    ensures r > 0 <==> Stored(|ns|, false, dev.log, |old(dev.log)|)
    ensures blind <==> !dev.log[|old(dev.log)|]
    ensures r > 0 ==> HoldsNetworks(dev.mem[..], (if blind then [] else ns) + [n])
    ensures r < 0 && !blind ==> HoldsNetworks(dev.mem[..], ns)
    ensures r < 0 && blind ==> LeftBlind(dev.mem[..], ns, n, |dev.log| - |old(dev.log)|)
    ensures dev.CleanSince(|old(dev.log)|) ==>
      !blind && r == if |ns| >= MAX_RECORDS then ERROR_INDEX_EXCEED else n.index as int
  {
    var at := |dev.log|;
    r := StoreData(dev, false, n, ns);
    blind := !dev.log[at];
    if r == SUCCESS {
      r := n.index;
    }
  }
}
