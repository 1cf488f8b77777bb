/** The keypair file: creating, finding, listing and deleting keypairs on the device, with the
    exact result of every operation under any pattern of device failures. */
module KeypairStore {
  import opened Bytes
  import opened Tlv
  import opened Nvram
  import opened RecordChain
  import opened Fields
  import opened KeypairRecord

  const ERROR_INEXISTENCE: int := -10210005
  const ERROR_INDEX_EXCEED: int := -10210007

  /** Position of the first keypair with this index, or |ks|. */
  function Position(ks: seq<Keypair>, index: byte): (p: nat)
    ensures p <= |ks|
    ensures p < |ks| ==> ks[p].index == index
    ensures forall j :: 0 <= j < p ==> ks[j].index != index
  {
    if ks == [] then 0 else if ks[0].index == index then 0 else 1 + Position(ks[1..], index)
  }

  /** Keypair i of a held region can be read at its offset. */
  lemma KeypairAt(m: seq<byte>, ks: seq<Keypair>, i: nat)
    requires HoldsKeypairs(m, ks) && i < |ks|
    ensures ks[i] in ks && Fits(ks[i])
    ensures RecordAt(m, Offset(Entries(ks), i), FieldsOf(ks[i]))
    ensures |Entry(ks[i])| == |Payload(FieldsOf(ks[i]))| + LengthWidth(|Payload(FieldsOf(ks[i]))|)
    ensures Offset(Entries(ks), i + 1) == Offset(Entries(ks), i) + |Entry(ks[i])|
  {
    assert ks[i] in ks;
    EntryAt(m, 0, Entries(ks), i);
    DecodeEncoded(|Payload(FieldsOf(ks[i]))|, [0, 0, 0]);
  }

  /** The octets of its index field: length 1, then the index. */
  lemma IndexOctets(m: seq<byte>, start: nat, k: Keypair)
    requires Fits(k) && RecordAt(m, start, FieldsOf(k))
    ensures var body := start + LengthWidth(|Payload(FieldsOf(k))|);
      body + 3 <= |m| && m[body] == 1 && m[body + 1] == k.index
  {
    var body := start + LengthWidth(|Payload(FieldsOf(k))|);
    assert |Payload(FieldsOf(k))| >= 3 && FieldOffset(FieldsOf(k), 0) == 0 by {
      Layout(k);
    }
    FieldInRegion(m, start, FieldsOf(k), 0);
    assert m[body..body + 2] == Lv([k.index]) == [1, k.index];
    assert m[body] == m[body..body + 2][0] && m[body + 1] == m[body..body + 2][1];
    assert |Record(FieldsOf(k))| == |Payload(FieldsOf(k))| + LengthWidth(|Payload(FieldsOf(k))|);
  }

  /** One step of the search for an index: reads the length and the index of keypair i, whose
      index octet deletion reads once more; next is the start of the keypair behind it. */
  method ReadIndex(dev: Device, offset: nat, again: bool, ghost ks: seq<Keypair>, ghost i: nat)
    returns (code: int, len: nat, index: byte, next: nat)
    requires HoldsKeypairs(dev.mem[..], ks) && i < |ks| && offset == Offset(Entries(ks), i)
    modifies dev`log
    ensures old(dev.log) <= dev.log && code <= SUCCESS
    ensures |dev.log| <= |old(dev.log)| + (if again then 3 else 2)
    ensures code == SUCCESS ==> |dev.log| == |old(dev.log)| + (if again then 3 else 2)
    ensures code == SUCCESS <==> dev.CleanSince(|old(dev.log)|)
    ensures code == SUCCESS ==> index == ks[i].index && next == Offset(Entries(ks), i + 1)
    ensures code == SUCCESS ==> ks[i] in ks && Fits(ks[i]) && len == |Payload(FieldsOf(ks[i]))|
  {
    KeypairAt(dev.mem[..], ks, i);
    code, len, index, next := ReadKeypairIndex(dev, offset, again, ks[i]);
  }

  method ReadKeypairIndex(dev: Device, offset: nat, again: bool, ghost k: Keypair)
    returns (code: int, len: nat, index: byte, next: nat)
    requires Fits(k) && RecordAt(dev.mem[..], offset, FieldsOf(k))
    modifies dev`log
    ensures old(dev.log) <= dev.log && code <= SUCCESS
    ensures |dev.log| <= |old(dev.log)| + (if again then 3 else 2)
    ensures code == SUCCESS ==> |dev.log| == |old(dev.log)| + (if again then 3 else 2)
    ensures code == SUCCESS <==> dev.CleanSince(|old(dev.log)|)
    ensures code == SUCCESS ==> len == |Payload(FieldsOf(k))|
    ensures code == SUCCESS ==> index == k.index && next == offset + |Entry(k)|
  {
    index, next := 0, offset;
    IndexOctets(dev.mem[..], offset, k);
    code, len := ReadRecordLen(dev, offset, FieldsOf(k));
    if code != SUCCESS {
      assert !dev.log[|dev.log| - 1];
      return;
    }
    var body := offset + LengthWidth(len);
    next := body + len;
    code, index := ReadIndexOctet(dev, body, again);
  }

  /** Reads an index field, whose length must be 1. */
  method ReadIndexOctet(dev: Device, body: nat, again: bool) returns (code: int, index: byte)
    requires body + 3 <= dev.mem.Length && dev.mem[body] == 1
    modifies dev`log
    ensures old(dev.log) <= dev.log && code <= SUCCESS
    ensures |dev.log| <= |old(dev.log)| + (if again then 2 else 1)
    ensures code == SUCCESS ==> |dev.log| == |old(dev.log)| + (if again then 2 else 1)
    ensures code == SUCCESS <==> dev.CleanSince(|old(dev.log)|)
    ensures code == SUCCESS ==> index == dev.mem[body + 1]
  {
    var octets;
    index := 0;
    code, octets := dev.Read(body, 3);
    if code != SUCCESS {
      assert !dev.log[|dev.log| - 1];
      return;
    }
    if DecodeLength(octets) != 1 {
      return ERROR, 0;
    }
    index := octets[1];
    if again {
      code, octets := dev.Read(body + 1, 1);
      if code != SUCCESS {
        assert !dev.log[|dev.log| - 1];
        return;
      }
      index := octets[0];
    }
  }

  /** Reads of a search that stops at keypair i. */
  function SearchReads(again: bool, i: nat): nat {
    if again then 3 * i + 3 else 2 * i + 2
  }

  /** Walks to the keypair with the given index. */
  method Locate(dev: Device, index: byte, num: nat, again: bool, ghost ks: seq<Keypair>)
    returns (code: int, i: nat, offset: nat, len: nat)
    requires HoldsKeypairs(dev.mem[..], ks) && num == |ks|
    modifies dev`log
    ensures old(dev.log) <= dev.log && code <= SUCCESS
    ensures |dev.log| <= |old(dev.log)| + SearchReads(again, Position(ks, index))
    ensures code == SUCCESS && i < num ==> |dev.log| == |old(dev.log)| + SearchReads(again, i)
    ensures code == SUCCESS <==> dev.CleanSince(|old(dev.log)|)
    ensures code == SUCCESS ==> i == Position(ks, index) && offset == Offset(Entries(ks), i)
    ensures code == SUCCESS && i < num ==> ks[i] in ks && Fits(ks[i]) && len == |Payload(FieldsOf(ks[i]))|
  {
    code, i, offset, len := Walk(dev, index, num, again, ks, Entries(ks), Position(ks, index));
  }

  /** The loop of the search; `position` is where it ends. */
  method Walk(dev: Device, index: byte, num: nat, again: bool, ghost ks: seq<Keypair>, ghost es: seq<seq<byte>>,
              ghost position: nat)
    returns (code: int, i: nat, offset: nat, len: nat)
    requires HoldsKeypairs(dev.mem[..], ks) && num == |ks| && es == Entries(ks)
    requires position <= num && (position < num ==> ks[position].index == index)
    requires forall j :: 0 <= j < position ==> ks[j].index != index
    modifies dev`log
    ensures old(dev.log) <= dev.log && code <= SUCCESS
    ensures |dev.log| <= |old(dev.log)| + SearchReads(again, position)
    ensures code == SUCCESS && i < num ==> |dev.log| == |old(dev.log)| + SearchReads(again, i)
    ensures code == SUCCESS <==> dev.CleanSince(|old(dev.log)|)
    ensures code == SUCCESS ==> i == position && offset == Offset(es, i)
    ensures code == SUCCESS && i < num ==> ks[i] in ks && Fits(ks[i]) && len == |Payload(FieldsOf(ks[i]))|
  {
    ghost var log0 := dev.log;
    code, offset, i, len := SUCCESS, HEADER_LEN, 0, 0;
    assert Offset(es, 0) == HEADER_LEN;
    while i < num
      invariant 0 <= i <= num && code == SUCCESS && i <= position
      invariant offset == Offset(es, i)
      invariant |dev.log| == |log0| + (if again then 3 * i else 2 * i)
      invariant log0 <= dev.log && dev.CleanSince(|log0|)
    {
      var keypairIndex, next;
      code, len, keypairIndex, next := ReadIndex(dev, offset, again, ks, i);
      if code != SUCCESS || keypairIndex == index {
        return;
      }
      offset, i := next, i + 1;
    }
  }

  /** Reads the header, and walks to the keypair with the given index unless the file is empty.
      Only a deletion, which reads index octets again, hands on the error of the header read. */
  method Search(dev: Device, index: byte, again: bool, ghost ks: seq<Keypair>)
    returns (code: int, num: nat, i: nat, offset: nat, len: nat)
    requires HoldsKeypairs(dev.mem[..], ks)
    modifies dev`log
    ensures old(dev.log) < dev.log && code <= SUCCESS
    ensures |dev.log| <= |old(dev.log)| + 1 + SearchReads(again, Position(ks, index))
    ensures code == SUCCESS && i < num ==> |dev.log| == |old(dev.log)| + 1 + SearchReads(again, i)
    ensures code == SUCCESS <==> dev.CleanSince(|old(dev.log)|)
    ensures code == SUCCESS ==> num == |ks| && i == Position(ks, index)
    ensures code == SUCCESS && i < num ==> offset == Offset(Entries(ks), i)
    ensures code == SUCCESS && i < num ==> ks[i] in ks && Fits(ks[i]) && len == |Payload(FieldsOf(ks[i]))|
  {
    var n;
    num, i, offset, len := 0, 0, 0, 0;
    code, n := ReadHeader(dev, 0, Entries(ks));
    if code != SUCCESS {
      assert !dev.log[|dev.log| - 1];
      return if again then code else ERROR, num, i, offset, len;
    }
    if n > 0 {
      num := n;
      ghost var before := |dev.log|;
      code, i, offset, len := Locate(dev, index, num, again, ks);
      assert dev.CleanSince(|old(dev.log)|) <==> dev.CleanSince(before);
    }
  }

  /** Reads the keypair with the given index. */
  method GetByIndex(dev: Device, index: byte, ghost ks: seq<Keypair>) returns (code: int, k: Keypair)
    requires HoldsKeypairs(dev.mem[..], ks)
    modifies dev`log
    ensures old(dev.log) <= dev.log && code <= SUCCESS
    ensures index > MAX_RECORDS ==> code == ERROR_INDEX_EXCEED
    ensures code == SUCCESS ==> Position(ks, index) < |ks| && k == ks[Position(ks, index)]
    ensures |dev.log| <= |old(dev.log)| + SearchReads(false, Position(ks, index)) + 10
    ensures code == SUCCESS ==> |dev.log| == |old(dev.log)| + SearchReads(false, Position(ks, index)) + 10
    ensures code == SUCCESS ==> dev.CleanSince(|old(dev.log)|)
    ensures index <= MAX_RECORDS && dev.CleanSince(|old(dev.log)|) ==>
      code == if Position(ks, index) < |ks| then SUCCESS else ERROR_INEXISTENCE
  {
    k := Keypair(0, [], [], [], []);
    if index > MAX_RECORDS {
      return ERROR_INDEX_EXCEED, k;
    }
    var num, i, offset, len;
    code, num, i, offset, len := Search(dev, index, false, ks);
    if code != SUCCESS {
      return;
    }
    if num <= 0 || i >= num {
      return ERROR_INEXISTENCE, k;
    }
    KeypairAt(dev.mem[..], ks, i);
    var body := offset + LengthWidth(len);
    code, k := ReadRest(dev, offset, body, body + 2, len, -1, true, k.(index := index), ks[i]);
  }

  lemma EntriesSnoc(ks: seq<Keypair>, k: Keypair)
    requires Fits(k) && AllFit(ks)
    ensures AllFit(ks + [k]) && Entries(ks + [k]) == Entries(ks) + [Entry(k)]
    ensures Entries([k]) == [Entry(k)] == [] + [Entry(k)] && [k] == [] + [k]
  {
  }

  lemma EntriesWithout(ks: seq<Keypair>, i: nat)
    requires i < |ks| && AllFit(ks)
    ensures AllFit(Without(ks, i)) && AllFit(ks[..i])
    ensures Entries(Without(ks, i)) == Without(Entries(ks), i)
    ensures Entries(ks[..i]) == Entries(ks)[..i]
  {
  }

  /** The octets to store: allocation, then serialisation. */
  method Prepare(dev: Device, k: Keypair) returns (code: int, octets: seq<byte>)
    requires WellFormed(k)
    modifies dev`log
    ensures old(dev.log) <= dev.log && code <= SUCCESS
    ensures |dev.log| == |old(dev.log)| + 1 && (Fits(k) && code != SUCCESS ==> !dev.log[|dev.log| - 1])
    ensures code == SUCCESS <==> dev.CleanSince(|old(dev.log)|) && Fits(k)
    ensures code == SUCCESS ==> octets == Entry(k)
    ensures code == SUCCESS || code == ERROR
  {
    octets := [];
    var len := DataLen(k);
    var ok := dev.Allocate();
    if !ok {
      assert !dev.log[|dev.log| - 1];
      return ERROR, [];
    }
    var data := new byte[len];
    code, len := Serialize(k, data);
    if code == SUCCESS {
      octets := data[..];
    }
  }

  // A store in terms of its operations, which are those behind the first `start`, on a file of n
  // keypairs

  function StoreOps(n: nat): nat {
    n + 4
  }

  /** Whether a store goes through. */
  ghost predicate Stored(n: nat, onetime: bool, k: Keypair, log: seq<bool>, start: nat) {
    Fits(k) && (HeaderRead(log, start) ==> n < MAX_RECORDS) &&
    !FailedWithin(log, start + 1, Base(n, onetime, log, start) + 3)
  }

  /** Whether what a store leaves is known to be AfterStore: if it goes through, if it has read the
      header, or if it fails before its first write. */
  ghost predicate StoreKnown(n: nat, onetime: bool, k: Keypair, log: seq<bool>, start: nat) {
    Stored(n, onetime, k, log, start) || (!onetime && HeaderRead(log, start)) || |log| < start + StoreOps(0)
  }

  ghost function AfterStore(ks: seq<Keypair>, onetime: bool, k: Keypair, log: seq<bool>, start: nat): seq<Keypair> {
    if !Stored(|ks|, onetime, k, log, start) then ks
    else if onetime || !HeaderRead(log, start) then [k]
    else ks + [k]
  }

  /** The other case: the record of k stands where the first record of the list stood, under the
      old count. */
  ghost predicate LeftBlind(m: seq<byte>, ks: seq<Keypair>, k: Keypair) {
    Fits(k) && exists was :: HoldsKeypairs(was, ks) && Wrote(was, HEADER_LEN, Entry(k), m)
  }

  /** What is known then: the file still holds the list exactly if that was empty or started with
      the same keypair, and whatever list it holds starts with k. It does hold one if there was no
      other record, or if the two records have the same length. */
  lemma LeftBlindMeaning(m: seq<byte>, ks: seq<Keypair>, k: Keypair)
    requires LeftBlind(m, ks, k)
    ensures HoldsKeypairs(m, ks) <==> ks == [] || Entry(ks[0]) == Entry(k)
    ensures ks != [] ==> forall ls :: HoldsKeypairs(m, ls) ==> |ls| == |ks| && Entry(ls[0]) == Entry(k)
    ensures ks != [] && (|ks| == 1 || |Entry(ks[0])| == |Entry(k)|) ==> HoldsKeypairs(m, [k] + ks[1..])
  {
    var was :| HoldsKeypairs(was, ks) && Wrote(was, HEADER_LEN, Entry(k), m);
    EntryIsEntry(k);
    if ks == [] {
      assert Offset(Entries(ks), 0) == HEADER_LEN;
      WrittenBehind(was, 0, Entries(ks), HEADER_LEN, Entry(k));
    } else {
      BlindOver(was, ks, k, m);
    }
  }

  lemma BlindOver(was: seq<byte>, ks: seq<Keypair>, k: Keypair, m: seq<byte>)
    requires HoldsKeypairs(was, ks) && ks != [] && Fits(k) && Wrote(was, HEADER_LEN, Entry(k), m)
    ensures HoldsKeypairs(m, ks) <==> Entry(ks[0]) == Entry(k)
    ensures forall ls :: HoldsKeypairs(m, ls) ==> |ls| == |ks| && Entry(ls[0]) == Entry(k)
    ensures |ks| == 1 || |Entry(ks[0])| == |Entry(k)| ==> HoldsKeypairs(m, [k] + ks[1..])
  {
    var es := Entries(ks);
    EntryIsEntry(k);
    FirstKept(was, 0, es, Entry(k), m);
    BlindFirst(was, ks, k, m);
    EntriesReplaced(ks, k);
    if |ks| == 1 || |Entry(ks[0])| == |Entry(k)| {
      FirstReplaced(was, 0, es, Entry(k), m);
    }
  }

  lemma BlindFirst(was: seq<byte>, ks: seq<Keypair>, k: Keypair, m: seq<byte>)
    requires HoldsKeypairs(was, ks) && ks != [] && Fits(k) && Wrote(was, HEADER_LEN, Entry(k), m)
    ensures forall ls :: HoldsKeypairs(m, ls) ==> |ls| == |ks| && Entry(ls[0]) == Entry(k)
    ensures HoldsKeypairs(m, ks) ==> Entry(ks[0]) == Entry(k)
    ensures Entry(k) <= Entry(ks[0]) ==> Entry(k) == Entry(ks[0])
  {
    EntryIsEntry(k);
    forall ls | HoldsKeypairs(m, ls) ensures |ls| == |ks| && Entry(ls[0]) == Entry(k) {
      StartsWith(was, 0, Entries(ks), Entry(k), m, Entries(ls));
    }
    if Entry(k) <= Entry(ks[0]) {
      SelfDelimiting(0, Entry(k), Entry(ks[0]));
    }
  }

  lemma EntriesReplaced(ks: seq<Keypair>, k: Keypair)
    requires AllFit(ks) && ks != [] && Fits(k)
    ensures AllFit([k] + ks[1..]) && Entries([k] + ks[1..]) == [Entry(k)] + Entries(ks)[1..]
  {
  }

  /** Appends a keypair. A header that cannot be read counts as an empty file: then the
      keypair is written over the first record and becomes the only one. */
  method StoreData(dev: Device, onetime: bool, k: Keypair, ghost ks: seq<Keypair>)
    returns (code: int, ghost after: seq<Keypair>)
    requires WellFormed(k) && HoldsKeypairs(dev.mem[..], ks)
    modifies dev`log, dev.mem
    ensures old(dev.log) < dev.log && code <= SUCCESS && |after| <= MAX_RECORDS
    ensures code == SUCCESS <==> Stored(|ks|, onetime, k, dev.log, |old(dev.log)|)
    ensures code == SUCCESS ==>
      |dev.log| == |old(dev.log)| + StoreOps(Base(|ks|, onetime, dev.log, |old(dev.log)|))
    ensures after == AfterStore(ks, onetime, k, dev.log, |old(dev.log)|)
    ensures if StoreKnown(|ks|, onetime, k, dev.log, |old(dev.log)|) then HoldsKeypairs(dev.mem[..], after)
            else LeftBlind(dev.mem[..], ks, k)
    ensures dev.CleanSince(|old(dev.log)|) ==>
      code == if |ks| >= MAX_RECORDS then ERROR_INDEX_EXCEED else if Fits(k) then SUCCESS else ERROR
  {
    code := StoreEntry(dev, onetime, k, Entries(ks));
    after := AfterStore(ks, onetime, k, dev.log, |old(dev.log)|);
    if Fits(k) {
      EntriesSnoc(ks, k);
    }
  }

  method StoreEntry(dev: Device, onetime: bool, k: Keypair, ghost es: seq<seq<byte>>) returns (code: int)
    requires WellFormed(k) && Holds(dev.mem[..], 0, es)
    modifies dev`log, dev.mem
    ensures old(dev.log) < dev.log && code <= SUCCESS
    ensures code == SUCCESS <==> Stored(|es|, onetime, k, dev.log, |old(dev.log)|)
    ensures code == SUCCESS ==>
      |dev.log| == |old(dev.log)| + StoreOps(Base(|es|, onetime, dev.log, |old(dev.log)|))
    ensures code == SUCCESS ==> var kept := if onetime || !HeaderRead(dev.log, |old(dev.log)|) then [] else es;
      |kept| < MAX_RECORDS && Holds(dev.mem[..], 0, kept + [Entry(k)])
    ensures code != SUCCESS && StoreKnown(|es|, onetime, k, dev.log, |old(dev.log)|) ==> Holds(dev.mem[..], 0, es)
    ensures !StoreKnown(|es|, onetime, k, dev.log, |old(dev.log)|) ==>
      Fits(k) && Wrote(old(dev.mem[..]), HEADER_LEN, Entry(k), dev.mem[..])
    ensures dev.CleanSince(|old(dev.log)|) ==>
      code == if |es| >= MAX_RECORDS then ERROR_INDEX_EXCEED else if Fits(k) then SUCCESS else ERROR
  {
    var num;
    code, num := StartCount(dev, onetime, 0, es);
    if num >= MAX_RECORDS {
      return ERROR_INDEX_EXCEED;
    }
    ghost var before := |dev.log|;
    assert es[..num] == if onetime || !dev.log[before - 1] then [] else es;
    code := StoreFrom(dev, num, k, es);
    assert dev.CleanSince(|old(dev.log)|) <==> dev.log[|old(dev.log)|] && dev.CleanSince(before);
  }

  /** A store that takes the file to hold num records. */
  method StoreFrom(dev: Device, num: nat, k: Keypair, ghost es: seq<seq<byte>>) returns (code: int)
    requires WellFormed(k) && Holds(dev.mem[..], 0, es)
    requires num < MAX_RECORDS && (num == 0 || num == |es|)
    modifies dev`log, dev.mem
    ensures old(dev.log) < dev.log && code <= SUCCESS
    ensures code == SUCCESS <==> Fits(k) && !FailedWithin(dev.log, |old(dev.log)|, num + 3)
    ensures code == SUCCESS ==> |dev.log| == |old(dev.log)| + num + 3 && Holds(dev.mem[..], 0, es[..num] + [Entry(k)])
    ensures code != SUCCESS && (num == |es| || |dev.log| < |old(dev.log)| + 3) ==> Holds(dev.mem[..], 0, es)
    ensures code != SUCCESS && num == 0 && |dev.log| >= |old(dev.log)| + 3 ==>
      Fits(k) && Wrote(old(dev.mem[..]), HEADER_LEN, Entry(k), dev.mem[..])
    ensures dev.CleanSince(|old(dev.log)|) ==> code == if Fits(k) then SUCCESS else ERROR
  {
    var offset;
    code, offset := FindEnd(dev, 0, num, es);
    if code == SUCCESS {
      ghost var before := |dev.log|;
      code := StoreAt(dev, num, offset, k, es);
      assert dev.CleanSince(|old(dev.log)|) <==> dev.CleanSince(before);
    } else {
      assert !dev.log[|dev.log| - 1];
    }
  }

  method StoreAt(dev: Device, num: nat, offset: nat, k: Keypair, ghost es: seq<seq<byte>>) returns (code: int)
    requires WellFormed(k) && Holds(dev.mem[..], 0, es)
    requires num < MAX_RECORDS && (num == 0 || num == |es|) && offset == Offset(es, num)
    modifies dev`log, dev.mem
    ensures old(dev.log) < dev.log && |dev.log| <= |old(dev.log)| + 3 && code <= SUCCESS
    ensures code == SUCCESS <==> Fits(k) && dev.CleanSince(|old(dev.log)|)
    ensures code == SUCCESS ==> |dev.log| == |old(dev.log)| + 3 && Holds(dev.mem[..], 0, es[..num] + [Entry(k)])
    ensures code != SUCCESS && num == |es| ==> Holds(dev.mem[..], 0, es)
    ensures code != SUCCESS && |dev.log| < |old(dev.log)| + 3 ==> dev.mem[..] == old(dev.mem[..])
    ensures code != SUCCESS && |dev.log| == |old(dev.log)| + 3 ==>
      Fits(k) && Wrote(old(dev.mem[..]), offset, Entry(k), dev.mem[..])
    ensures dev.CleanSince(|old(dev.log)|) && !Fits(k) ==> code == ERROR
  {
    var octets;
    code, octets := Prepare(dev, k);
    if code == SUCCESS {
      ghost var before := |dev.log|;
      EntryIsEntry(k);
      code := Commit(dev, 0, num, offset, octets, es);
      assert dev.CleanSince(|old(dev.log)|) <==> dev.CleanSince(before);
    }
  }

  lemma EntriesAfterRemoval(ks: seq<Keypair>, i: nat, ops: seq<bool>)
    requires i < |ks| && AllFit(ks)
    ensures AllFit(AfterRemoval(ks, i, ops))
    ensures Entries(AfterRemoval(ks, i, ops)) == AfterRemoval(Entries(ks), i, ops)
  {
    EntriesWithout(ks, i);
    EntriesWithout(ks, |ks| - 1);
  }

  /** How a deletion proceeds from the lowering of the count on: nothing follows if that fails;
      otherwise everything goes through, or exactly one operation, the recovery, follows the first
      failure. */
  predicate Recovers(log: seq<bool>, start: nat) {
    start < |log| &&
    if !log[start] then |log| == start + 1
    else (forall k :: start <= k < |log| ==> log[k]) || StopsAt(log[..|log| - 1], start)
  }

  lemma RecoveryFollows(log0: seq<bool>, log1: seq<bool>, log: seq<bool>, start: nat)
    requires |log0| == start && log0 + [true] <= log1 && StopsAt(log1, start + 1)
    requires |log| == |log1| + 1 && log1 <= log
    ensures Recovers(log, start)
  {
    assert log[..|log| - 1] == log1;
    assert log1[start] && log[start];
  }

  /** Deletes entry i: lowers the count, erases the entry, and writes the old count back if
      that fails. What is left depends on the outcomes of these operations alone; if the last
      write fails too, the last entry is lost, whichever entry was to be deleted. */
  method DeleteEntry(dev: Device, num: nat, i: nat, offset: nat, len: nat, ghost es: seq<seq<byte>>)
    returns (code: int)
    requires Holds(dev.mem[..], 0, es) && i < num == |es|
    requires offset == Offset(es, i) && len == |es[i]|
    modifies dev`log, dev.mem
    ensures old(dev.log) < dev.log && code <= SUCCESS
    ensures code == SUCCESS ==> |dev.log| == |old(dev.log)| + 1 + EraseOps(num, i)
    ensures code != SUCCESS ==> FailedWithin(dev.log, |old(dev.log)|, 1 + EraseOps(num, i))
    ensures code == SUCCESS <==> dev.CleanSince(|old(dev.log)|)
    ensures Holds(dev.mem[..], 0, AfterRemoval(es, i, dev.log[|old(dev.log)|..]))
    ensures Recovers(dev.log, |old(dev.log)|)
  {
    ghost var m, log0 := dev.mem[..], dev.log;
    Lowered(m, 0, es);
    code := dev.Write(0, Header(num - 1));
    if code != SUCCESS {
      EntryUntouched(es, i, log0, dev.log);
      return;
    }
    ghost var after;
    code, after := EraseLowered(dev, num, i, offset, len, m, es, log0);
  }

  /** The rest, with the count lowered. */
  method EraseLowered(dev: Device, num: nat, i: nat, offset: nat, len: nat, ghost m: seq<byte>, ghost es: seq<seq<byte>>,
                      ghost log0: seq<bool>)
    returns (code: int, ghost after: seq<seq<byte>>)
    requires Holds(m, 0, es) && i < num == |es| && HEADER_LEN <= |m|
    requires dev.mem[..] == Overwrite(m, 0, Header(num - 1)) && dev.log == log0 + [true]
    requires offset == Offset(es, i) && len == |es[i]|
    modifies dev`log, dev.mem
    ensures old(dev.log) <= dev.log && code <= SUCCESS
    ensures code == SUCCESS ==> |dev.log| == |log0| + 1 + EraseOps(num, i)
    ensures code != SUCCESS ==> FailedWithin(dev.log, |log0|, 1 + EraseOps(num, i))
    ensures code == SUCCESS <==> dev.CleanSince(|log0|)
    ensures Holds(dev.mem[..], 0, after) && after == AfterRemoval(es, i, dev.log[|log0|..])
    ensures Recovers(dev.log, |log0|)
  {
    code := Erase(dev, 0, num, i, offset, len, m, es);
    if code == SUCCESS {
      after := Without(es, i);
      EntryGone(es, i, log0, dev.log);
    } else {
      ghost var log1 := dev.log;
      code, after := WriteCountBack(dev, num, code, m, es);
      EntryKept(es, i, log0, log1, dev.log, after);
    }
  }

  /** The recovery behind a failed erasure. */
  method WriteCountBack(dev: Device, num: nat, failure: int, ghost m: seq<byte>, ghost es: seq<seq<byte>>)
    returns (code: int, ghost after: seq<seq<byte>>)
    requires Holds(m, 0, es) && num == |es| > 0 && HEADER_LEN <= |m| && failure < SUCCESS
    requires dev.mem[..] == Overwrite(m, 0, Header(num - 1))
    modifies dev`log, dev.mem
    ensures old(dev.log) < dev.log && |dev.log| == |old(dev.log)| + 1 && code < SUCCESS
    ensures after == (if dev.log[|dev.log| - 1] then es else es[..num - 1]) && Holds(dev.mem[..], 0, after)
  {
    Lowered(m, 0, es);
    code, after := failure, es;
    var recovery := dev.Write(0, Header(num));
    if recovery != SUCCESS {
      code, after := recovery, es[..num - 1];
    }
  }

  lemma EntryUntouched<T>(s: seq<T>, i: nat, log0: seq<bool>, log: seq<bool>)
    requires i < |s| && log == log0 + [false]
    ensures AfterRemoval(s, i, log[|log0|..]) == s && Recovers(log, |log0|) && FailedWithin(log, |log0|, 1 + EraseOps(|s|, i))
    ensures !log[|log0|]
  {
  }

  lemma EntryGone<T>(s: seq<T>, i: nat, log0: seq<bool>, log: seq<bool>)
    requires i < |s| && log0 + [true] <= log && forall k :: |log0| + 1 <= k < |log| ==> log[k]
    ensures AfterRemoval(s, i, log[|log0|..]) == Without(s, i) && Recovers(log, |log0|)
    ensures forall k :: |log0| <= k < |log| ==> log[k]
  {
    assert log[|log0|];
    RemovalDone(s, i, log, |log0|);
  }

  lemma EntryKept<T>(s: seq<T>, i: nat, log0: seq<bool>, log1: seq<bool>, log: seq<bool>, after: seq<T>)
    requires i < |s| && log0 + [true] <= log1 <= log && |log| == |log1| + 1
    requires StopsAt(log1, |log0| + 1) && |log1| <= |log0| + 1 + EraseOps(|s|, i)
    requires after == if log[|log| - 1] then s else s[..|s| - 1]
    ensures AfterRemoval(s, i, log[|log0|..]) == after
    ensures Recovers(log, |log0|) && FailedWithin(log, |log0|, 1 + EraseOps(|s|, i))
    ensures !forall k :: |log0| <= k < |log| ==> log[k]
  {
    assert !log[|log1| - 1] && log1[|log0|] && log[|log0|];
    RemovalFailed(s, i, log, |log0|, |log1| - 1);
    RecoveryFollows(log0, log1, log, |log0|);
  }

  /** Operations of a deletion of keypair i before it lowers the count: the header, the search,
      and the whole keypair once more. */
  function RemovalReads(i: nat): nat {
    1 + SearchReads(true, i) + (SearchReads(false, i) + 10)
  }

  /** Operations of a deletion of keypair i of n that goes through. */
  function RemovalOps(n: nat, i: nat): nat
    requires i < n
  {
    RemovalReads(i) + 1 + EraseOps(n, i)
  }

  /** What the file holds after a call to delete the keypair with this index, whose operations
      are those behind the first `start`. */
  function AfterDelete(ks: seq<Keypair>, index: byte, log: seq<bool>, start: nat): seq<Keypair> {
    var p := Position(ks, index);
    if p == |ks| then ks else AfterRemoval(ks, p, OpsFrom(log, start + RemovalReads(p)))
  }

  /** How such a call proceeds once it has read the keypair. */
  predicate RemovalProceeds(ks: seq<Keypair>, index: byte, log: seq<bool>, start: nat) {
    var p := Position(ks, index);
    p < |ks| && |log| > start + RemovalReads(p) ==> Recovers(log, start + RemovalReads(p))
  }

  lemma RemovalReached(ks: seq<Keypair>, index: byte, log: seq<bool>, start: nat, before: nat)
    requires Position(ks, index) < |ks| && before == start + RemovalReads(Position(ks, index)) < |log|
    ensures AfterDelete(ks, index, log, start) == AfterRemoval(ks, Position(ks, index), log[before..])
  {
    DeletedAt(ks, index, log, start, Position(ks, index), OpsFrom(log, before));
  }

  lemma DeletedAt(ks: seq<Keypair>, index: byte, log: seq<bool>, start: nat, p: nat, ops: seq<bool>)
    requires p == Position(ks, index) < |ks| && ops == OpsFrom(log, start + RemovalReads(p))
    ensures AfterDelete(ks, index, log, start) == AfterRemoval(ks, p, ops)
  {
  }

  lemma RemovalNotReached(ks: seq<Keypair>, index: byte, log: seq<bool>, start: nat)
    requires Position(ks, index) < |ks| ==> |log| <= start + RemovalReads(Position(ks, index))
    ensures AfterDelete(ks, index, log, start) == ks
    ensures RemovalProceeds(ks, index, log, start)
  {
  }

  /** Deletes the keypair with the given index from the file, and hands it back for a later
      restoration. `after` is what the file then holds. */
  method Remove(dev: Device, index: byte, ghost ks: seq<Keypair>)
    returns (code: int, removed: Keypair, ghost after: seq<Keypair>)
    requires HoldsKeypairs(dev.mem[..], ks) && index <= MAX_RECORDS
    modifies dev`log, dev.mem
    ensures old(dev.log) < dev.log && code <= SUCCESS
    ensures HoldsKeypairs(dev.mem[..], after) && after == AfterDelete(ks, index, dev.log, |old(dev.log)|)
    ensures code != SUCCESS && Position(ks, index) < |ks| ==>
      FailedWithin(dev.log, |old(dev.log)|, RemovalOps(|ks|, Position(ks, index)))
    ensures code == SUCCESS <==> Position(ks, index) < |ks| && dev.CleanSince(|old(dev.log)|)
    ensures code == SUCCESS ==> |dev.log| == |old(dev.log)| + RemovalOps(|ks|, Position(ks, index))
    ensures code == SUCCESS ==> removed == ks[Position(ks, index)] && after == Without(ks, Position(ks, index))
    ensures code != SUCCESS ==> after == ks || (Position(ks, index) < |ks| && after == ks[..|ks| - 1])
    ensures RemovalProceeds(ks, index, dev.log, |old(dev.log)|)
    ensures dev.CleanSince(|old(dev.log)|) && Position(ks, index) == |ks| ==>
      code == if ks == [] then ERROR_INEXISTENCE else ERROR
  {
    var num, i, offset, entryLen;
    after := ks;
    code, removed, num, i, offset, entryLen := FindForRemoval(dev, index, ks);
    if code == SUCCESS {
      ghost var before := |dev.log|;
      code, after := RemoveAt(dev, num, i, offset, entryLen, ks, index, |old(dev.log)|);
      assert dev.CleanSince(|old(dev.log)|) ==> dev.CleanSince(before);
    } else {
      RemovalNotReached(ks, index, dev.log, |old(dev.log)|);
    }
  }

  /** The reads of a deletion: count, search, and the whole record for a later restoration. */
  method FindForRemoval(dev: Device, index: byte, ghost ks: seq<Keypair>)
    returns (code: int, removed: Keypair, num: nat, i: nat, offset: nat, entryLen: nat)
    requires HoldsKeypairs(dev.mem[..], ks) && index <= MAX_RECORDS
    modifies dev`log
    ensures old(dev.log) < dev.log && code <= SUCCESS
    ensures Position(ks, index) < |ks| ==> |dev.log| <= |old(dev.log)| + RemovalReads(Position(ks, index))
    ensures code == SUCCESS ==> |dev.log| == |old(dev.log)| + RemovalReads(Position(ks, index))
    ensures code == SUCCESS <==> Position(ks, index) < |ks| && dev.CleanSince(|old(dev.log)|)
    ensures code == SUCCESS ==> num == |ks| && i == Position(ks, index) && removed == ks[i]
    ensures code == SUCCESS ==> offset == Offset(Entries(ks), i) && entryLen == |Entries(ks)[i]|
    ensures dev.CleanSince(|old(dev.log)|) && Position(ks, index) == |ks| ==>
      code == if ks == [] then ERROR_INEXISTENCE else ERROR
  {
    removed, num, i, offset, entryLen := Keypair(0, [], [], [], []), 0, 0, 0, 0;
    var len;
    code, num, i, offset, len := Search(dev, index, true, ks);
    if code != SUCCESS {
      return;
    }
    if num <= 0 || i >= num {
      code := if num <= 0 then ERROR_INEXISTENCE else ERROR;
      return;
    }
    KeypairAt(dev.mem[..], ks, i);
    entryLen := LengthWidth(len) + len;
    ghost var before := |dev.log|;
    code, removed := GetByIndex(dev, index, ks);
    assert dev.CleanSince(|old(dev.log)|) ==> dev.CleanSince(before);
  }

  method RemoveAt(dev: Device, num: nat, i: nat, offset: nat, entryLen: nat, ghost ks: seq<Keypair>,
                  ghost index: byte, ghost start: nat)
    returns (code: int, ghost after: seq<Keypair>)
    requires HoldsKeypairs(dev.mem[..], ks) && i < num == |ks|
    requires offset == Offset(Entries(ks), i) && entryLen == |Entries(ks)[i]|
    requires i == Position(ks, index) && |dev.log| == start + RemovalReads(i)
    modifies dev`log, dev.mem
    ensures old(dev.log) < dev.log && code <= SUCCESS
    ensures code != SUCCESS ==> FailedWithin(dev.log, start, RemovalOps(num, i))
    ensures code == SUCCESS <==> dev.CleanSince(|old(dev.log)|)
    ensures code == SUCCESS ==> |dev.log| == start + RemovalOps(num, i) && after == Without(ks, i)
    ensures code != SUCCESS ==> after == ks || after == ks[..num - 1]
    ensures HoldsKeypairs(dev.mem[..], after) && after == AfterDelete(ks, index, dev.log, start)
    ensures RemovalProceeds(ks, index, dev.log, start)
  {
    ghost var before := |dev.log|;
    code := DeleteEntry(dev, num, i, offset, entryLen, Entries(ks));
    EntriesAfterRemoval(ks, i, dev.log[before..]);
    after := AfterRemoval(ks, i, dev.log[before..]);
    RemovalReached(ks, index, dev.log, start, before);
    if code == SUCCESS {
      RemovalDone(ks, i, dev.log, before);
    } else {
      ghost var bad :| before <= bad < |dev.log| && !dev.log[bad];
      RemovalFailed(ks, i, dev.log, before, bad);
    }
  }
}
